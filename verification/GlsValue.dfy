/** The wrapper that MakeData puts around a stored value, and the loop that closes all values of an
    entry. The underlying closer is external; calls counts how often a wrapper has called its own. */
module GlsValue {
  import opened Options

  /** A wrapper's closer, gone once it has been called, and how often it has been called. */
  datatype Wrapper<C> = Wrapper(closer: Option<C>, calls: nat) {
    /** What closing makes of it; closing again changes nothing. */
    ghost function Shut(): Wrapper<C> {
      Wrapper(None, calls + if closer.Some? then 1 else 0)
    }
  }

  class DataImpl<C> {
    var closer: Option<C>
    ghost var calls: nat

    ghost function View(): Wrapper<C>
      reads this
    {
      Wrapper(closer, calls)
    }

    /** The underlying closer has been called at most once, and not at all while it is still kept. */
    ghost predicate Valid()
      reads this
    {
      calls <= 1 && (closer.Some? ==> calls == 0)
    }

    constructor MakeData(closer: Option<C>)
      ensures Valid() && this.closer == closer && calls == 0
    {
      this.closer := closer;
      calls := 0;
    }

    /** Closing forgets the closer before calling it. */
    method Close()
      modifies this
      ensures closer == None && calls == old(calls) + if old(closer).Some? then 1 else 0
      ensures View() == old(View()).Shut()
      ensures old(Valid()) ==> Valid()
    {
      if closer == None {
        return;
      }
      closer := None;
      calls := calls + 1;
    }
  }

  /** Closes every value of a map, in any order. A wrapper under several keys is closed several times
      but its closer is called only the first time, and never again after an earlier bulk close. */
  method CloseAll<K(==), C>(data: map<K, DataImpl<C>>)
    modifies data.Values
    ensures forall d | d in data.Values :: d.View() == old(d.View()).Shut() && (old(d.Valid()) ==> d.Valid())
    ensures forall d | d in data.Values ::
              d.closer == None && d.calls == old(d.calls) + if old(d.closer).Some? then 1 else 0
    ensures forall d | d in data.Values && old(d.Valid()) && old(d.closer).Some? :: d.calls == 1
  {
    var rest := data.Keys;
    while rest != {}
      invariant rest <= data.Keys
      invariant forall k | k in data && k !in rest :: data[k].View() == old(data[k].View()).Shut()
      invariant forall d | d in data.Values :: d.View() == old(d.View()) || d.View() == old(d.View()).Shut()
      decreases |rest|
    {
      var k :| k in rest;
      data[k].Close();
      rest := rest - {k};
    }
    forall d | d in data.Values
      ensures d.View() == old(d.View()).Shut()
    {
      var k :| k in data && data[k] == d;
    }
  }
}
