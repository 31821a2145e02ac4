/** The state root of src/execution/state.rs: a double hash over all storage
    entries, listed in whatever order the hash map yields them. */
module StateRoot {
  import opened Bytes
  import opened U256

  type Slot = (Address, Word)

  type Slots = map<Slot, Word>

  /** The address, and the slot and value with their bytes reversed. */
  function Entry(k: Slot, value: Word): (s: Bytes)
    ensures |s| == 84
  {
    k.0 + (ToBytesBE(k.1) + ToBytesBE(value))
  }

  /** Address, slot and value at fixed places, the two numbers little-endian. */
  lemma EntryExact(k: Slot, value: Word)
    ensures var e := Entry(k, value);
            |e| == 84 && e[..20] == k.0 && LE(e[20..52]) == BE(k.1) && LE(e[52..84]) == BE(value)
  {
    hide ToBytesBE, BE, LE;
    ReversedWord(k.1);
    ReversedWord(value);
    var e := Entry(k, value);
    assert e[20..52] == ToBytesBE(k.1) && e[52..84] == ToBytesBE(value);
  }

  lemma ReversedWord(w: Word)
    ensures LE(ToBytesBE(w)) == BE(w)
  {
    LEReversed(w);
  }

  /** Every slot once, in some order. */
  ghost predicate Lists(slots: Slots, order: seq<Slot>) {
    && (forall k :: k in order <==> k in slots)
    && (forall i, j :: 0 <= i < j < |order| ==> order[i] != order[j])
  }

  /** The bytes hashed for one order of the entries. */
  function Listing(slots: Slots, order: seq<Slot>): (s: Bytes)
    requires forall k :: k in order ==> k in slots
    ensures |s| == 84 * |order|
  {
    if order == [] then []
    else
      var n := |order| - 1;
      Listing(slots, order[..n]) + Entry(order[n], slots[order[n]])
  }

  /** Entry `i` of a listing starts at byte 84i. */
  lemma {:induction false} ListingAt(slots: Slots, order: seq<Slot>, i: nat)
    requires (forall k :: k in order ==> k in slots) && i < |order|
    ensures Listing(slots, order)[84 * i..84 * i + 84] == Entry(order[i], slots[order[i]])
  {
    hide Entry;
    var n := |order| - 1;
    var head, last := Listing(slots, order[..n]), Entry(order[n], slots[order[n]]);
    if i < n {
      ListingAt(slots, order[..n], i);
      assert (head + last)[84 * i..84 * i + 84] == head[84 * i..84 * i + 84];
    } else {
      assert (head + last)[84 * i..84 * i + 84] == last;
    }
  }

  /** 84 bytes a slot, in order: address, slot and value, the two numbers
      little-endian. */
  ghost predicate InOrder(slots: Slots, order: seq<Slot>, data: Bytes)
    requires forall k :: k in order ==> k in slots
  {
    && |data| == 84 * |order|
    && forall i :: 0 <= i < |order| ==>
         && data[84 * i..84 * i + 20] == order[i].0
         && LE(data[84 * i + 20..84 * i + 52]) == BE(order[i].1)
         && LE(data[84 * i + 52..84 * i + 84]) == BE(slots[order[i]])
  }

  lemma ListingExact(slots: Slots, order: seq<Slot>)
    requires forall k :: k in order ==> k in slots
    ensures InOrder(slots, order, Listing(slots, order))
  {
    hide Entry, Listing, BE, LE;
    var data := Listing(slots, order);
    forall i | 0 <= i < |order|
      ensures && data[84 * i..84 * i + 20] == order[i].0
              && LE(data[84 * i + 20..84 * i + 52]) == BE(order[i].1)
              && LE(data[84 * i + 52..84 * i + 84]) == BE(slots[order[i]])
    {
      ListingAt(slots, order, i);
      EntryExact(order[i], slots[order[i]]);
      Within(data, 84 * i, 0, 20);
      Within(data, 84 * i, 20, 52);
      Within(data, 84 * i, 52, 84);
    }
  }

  lemma Within(s: Bytes, at: nat, from: nat, to: nat)
    requires from <= to <= 84 && at + 84 <= |s|
    ensures s[at..at + 84][from..to] == s[at + from..at + to]
  {
    var x, y := s[at..at + 84][from..to], s[at + from..at + to];
    assert |x| == |y| == to - from;
    assert forall j :: 0 <= j < |x| ==> x[j] == s[at + from + j] == y[j];
  }

  function Root(sha: Sha256, slots: Slots, order: seq<Slot>): Bytes32
    requires forall k :: k in order ==> k in slots
  {
    Sha256d(sha, Listing(slots, order))
  }

  /** A root that `update_root` can have computed, or the initial one. */
  ghost predicate Rooted(sha: Sha256, slots: Slots, root: Bytes32) {
    || (slots == map[] && root == ZERO)
    || exists order :: Lists(slots, order) && root == Root(sha, slots, order)
  }

  // ----- what a root binds -------------------------------------------------

  lemma EntryInjective(k: Slot, v: Word, k': Slot, v': Word)
    requires Entry(k, v) == Entry(k', v')
    ensures k == k' && v == v'
  {
    hide ToBytesBE;
    SplitConcat(k.0, ToBytesBE(k.1) + ToBytesBE(v), k'.0, ToBytesBE(k'.1) + ToBytesBE(v'));
    SplitConcat(ToBytesBE(k.1), ToBytesBE(v), ToBytesBE(k'.1), ToBytesBE(v'));
    ToBytesBEInjective(k.1, k'.1);
    ToBytesBEInjective(v, v');
  }

  /** Entries have a fixed width, so the listing determines the order and what
      the listed slots hold. */
  lemma {:induction false} ListingInjective(s: Slots, o: seq<Slot>, s': Slots, o': seq<Slot>)
    requires (forall k :: k in o ==> k in s) && (forall k :: k in o' ==> k in s')
    requires Listing(s, o) == Listing(s', o')
    ensures o == o' && forall k :: k in o ==> s[k] == s'[k]
  {
    if o != [] {
      hide Entry;
      var n := |o| - 1;
      SplitConcat(Listing(s, o[..n]), Entry(o[n], s[o[n]]), Listing(s', o'[..n]), Entry(o'[n], s'[o'[n]]));
      EntryInjective(o[n], s[o[n]], o'[n], s'[o'[n]]);
      ListingInjective(s, o[..n], s', o'[..n]);
      assert o == o[..n] + [o[n]] && o' == o'[..n] + [o'[n]];
    }
  }

  /** Two roots agree exactly when storage and order agree, unless two different
      strings that were hashed have one hash. */
  lemma RootBinds(sha: Sha256, s: Slots, o: seq<Slot>, s': Slots, o': seq<Slot>)
    requires Lists(s, o) && Lists(s', o')
    ensures || (Root(sha, s, o) == Root(sha, s', o') <==> s == s' && o == o')
            || Collides(sha, Listing(s, o), Listing(s', o'))
            || Collides(sha, sha(Listing(s, o)), sha(Listing(s', o')))
  {
    if Listing(s, o) == Listing(s', o') {
      ListingInjective(s, o, s', o');
      assert s.Keys == s'.Keys;
    }
  }

  // ----- the order shows ---------------------------------------------------

  lemma {:induction false} SomeOrder(slots: Slots) returns (order: seq<Slot>)
    ensures Lists(slots, order) && |order| == |slots|
    decreases |slots|
  {
    order := [];
    if k :| k in slots {
      var rest := SomeOrder(slots - {k});
      order := rest + [k];
    }
  }

  lemma SwappedFront(slots: Slots, order: seq<Slot>)
    requires Lists(slots, order) && |order| >= 2
    ensures Lists(slots, order[0 := order[1]][1 := order[0]])
  {
    var o := order[0 := order[1]][1 := order[0]];
    assert o[0] == order[1] && o[1] == order[0];
    forall k
      ensures k in o <==> k in order
    {
      assert forall i :: 2 <= i < |o| ==> o[i] == order[i];
    }
  }

  lemma {:induction false} OrderLength(slots: Slots, order: seq<Slot>)
    requires Lists(slots, order)
    ensures |order| == |slots|
    decreases |order|
  {
    if order == [] {
      if k :| k in slots {
        assert k in order;
      }
    } else {
      var n := |order| - 1;
      var rest := slots - {order[n]};
      assert order == order[..n] + [order[n]];
      assert order[n] in order;
      OrderLength(rest, order[..n]);
      assert rest.Keys == slots.Keys - {order[n]};
    }
  }

  /** Two orders of at most one slot are the same order. */
  lemma FewSlotsOneOrder(slots: Slots, o: seq<Slot>, o': seq<Slot>)
    requires |slots| <= 1 && Lists(slots, o) && Lists(slots, o')
    ensures o == o'
  {
    OrderLength(slots, o);
    OrderLength(slots, o');
    if |o| == 1 {
      assert o[0] in o && o[0] in o';
    }
  }

  /** The storage alone determines the string that is hashed exactly when at
      most one slot is in use: with two, the order of the hash map shows. */
  lemma OrderShowsIff(slots: Slots)
    ensures (forall o, o' :: Lists(slots, o) && Lists(slots, o') ==> Listing(slots, o) == Listing(slots, o'))
            <==> |slots| <= 1
  {
    if |slots| <= 1 {
      forall o, o' | Lists(slots, o) && Lists(slots, o')
        ensures Listing(slots, o) == Listing(slots, o')
      {
        FewSlotsOneOrder(slots, o, o');
      }
    } else {
      var o := SomeOrder(slots);
      var o' := o[0 := o[1]][1 := o[0]];
      SwappedFront(slots, o);
      if Listing(slots, o) == Listing(slots, o') {
        ListingInjective(slots, o, slots, o');
        assert false;
      }
    }
  }
}
