/** The order of the downtime list: what downtime_compar says, where an entry is put
    in, and when the result is sorted. */
module DowntimeOrder {
  /** What the order looks at: the start time and whether the entry is triggered. */
  datatype Key = Key(startTime: int, isTriggered: bool)

  const INT_RANGE := 0x1_0000_0000
  const INT_LIMIT := 0x8000_0000

  /** A long cut down to an int. */
  function ToInt(x: int): int {
    var m := x % INT_RANGE;
    if m < INT_LIMIT then m else m - INT_RANGE
  }

  /** downtime_compar; the difference of two start times is returned as an int. */
  function Compar(a: Key, b: Key): int {
    if a.startTime == b.startTime && a.isTriggered != b.isTriggered then
      if b.isTriggered then -1 else 1
    else if a.startTime < b.startTime then -1
    else ToInt(a.startTime - b.startTime)
  }

  /** The order that is meant: by start time, and untriggered before triggered. */
  ghost predicate Before(a: Key, b: Key) {
    a.startTime < b.startTime || (a.startTime == b.startTime && !a.isTriggered && b.isTriggered)
  }

  /** The comparison has the right sign, except that a later start may look equal or
      earlier: it looks later exactly when the difference survives the cut. */
  lemma ComparExact(a: Key, b: Key)
    ensures Before(a, b) ==> Compar(a, b) < 0
    ensures !Before(a, b) && !Before(b, a) ==> Compar(a, b) == 0
    ensures Before(b, a) ==> (Compar(a, b) > 0 <==>
                              a.startTime == b.startTime || 0 < (a.startTime - b.startTime) % INT_RANGE < INT_LIMIT)
    ensures Before(b, a) ==> (Compar(a, b) < 0 <==> (a.startTime - b.startTime) % INT_RANGE >= INT_LIMIT)
  {
  }

  ghost predicate Near(a: Key, b: Key) {
    -INT_LIMIT < a.startTime - b.startTime < INT_LIMIT
  }

  lemma ComparNear(a: Key, b: Key)
    requires Near(a, b)
    ensures Compar(a, b) < 0 <==> Before(a, b)
    ensures Compar(a, b) > 0 <==> Before(b, a)
  {
  }

  /** Where downtime_add puts an entry: before the first one it compares less than. */
  function PlaceOf(keys: seq<Key>, k: Key): (p: nat)
    ensures p <= |keys| && (p < |keys| ==> Compar(k, keys[p]) < 0)
    ensures forall i :: 0 <= i < p ==> Compar(k, keys[i]) >= 0
  {
    if keys == [] || Compar(k, keys[0]) < 0 then 0 else 1 + PlaceOf(keys[1..], k)
  }

  ghost predicate Sorted(keys: seq<Key>) {
    forall i, j :: 0 <= i < j < |keys| ==> !Before(keys[j], keys[i])
  }

  ghost function Inserted<T>(s: seq<T>, p: nat, x: T): (r: seq<T>)
    requires p <= |s|
    ensures |r| == |s| + 1
    ensures forall i :: 0 <= i < |r| ==> r[i] == if i < p then s[i] else if i == p then x else s[i - 1]
  {
    s[..p] + [x] + s[p..]
  }

  /** Direct insertion keeps a sorted list sorted and goes behind everything equal. */
  lemma InsertionIsSortedAndStable(keys: seq<Key>, k: Key)
    requires Sorted(keys) && forall i :: 0 <= i < |keys| ==> Near(k, keys[i])
    ensures Sorted(Inserted(keys, PlaceOf(keys, k), k))
    ensures forall i :: 0 <= i < |keys| ==> (i < PlaceOf(keys, k) <==> !Before(k, keys[i]))
  {
    var p := PlaceOf(keys, k);
    forall i | 0 <= i < |keys| ensures i < p <==> !Before(k, keys[i]) {
      ComparNear(k, keys[i]);
      if i > p { assert !Before(keys[i], keys[p]); ComparNear(k, keys[p]); }
    }
  }

  /** Start times 2^31 seconds apart are out of the comparison's reach. */
  lemma FarApartIsUnsorted()
    ensures var keys, k := [Key(0, false)], Key(INT_LIMIT, false);
            Sorted(keys) && !Sorted(Inserted(keys, PlaceOf(keys, k), k))
  {
    var keys, k := [Key(0, false)], Key(INT_LIMIT, false);
    assert PlaceOf(keys, k) == 0;
    var r := Inserted(keys, 0, k);
    assert Before(r[1], r[0]);
  }

  /** Any insertion into a sorted list comes out sorted exactly when every entry that starts
      earlier than the new one does so by a difference the cut to an int leaves non-negative. */
  lemma InsertionSortedIff(keys: seq<Key>, k: Key)
    requires Sorted(keys)
    ensures Sorted(Inserted(keys, PlaceOf(keys, k), k)) <==>
              forall i :: 0 <= i < |keys| && keys[i].startTime < k.startTime ==>
                (k.startTime - keys[i].startTime) % INT_RANGE < INT_LIMIT
  {
    hide Compar, ToInt, PlaceOf, Inserted;
    var p := PlaceOf(keys, k);
    SortedWhereItStops(keys, k);
    forall i | 0 <= i < |keys| && keys[i].startTime < k.startTime
      ensures (k.startTime - keys[i].startTime) % INT_RANGE >= INT_LIMIT <==> Compar(k, keys[i]) < 0
    {
      ComparExact(k, keys[i]);
    }
    if p < |keys| {
      ComparExact(k, keys[p]);
      if Before(k, keys[p]) {
        forall i | p < i < |keys| ensures keys[i].startTime >= k.startTime {
          assert !Before(keys[i], keys[p]);
        }
      }
    }
  }

  /** An insertion goes wrong just where it stops too early. */
  lemma SortedWhereItStops(keys: seq<Key>, k: Key)
    requires Sorted(keys)
    ensures var p := PlaceOf(keys, k);
            Sorted(Inserted(keys, p, k)) <==> (p < |keys| ==> Before(k, keys[p]))
  {
    hide Compar, ToInt, PlaceOf;
    var p := PlaceOf(keys, k);
    var r := Inserted(keys, p, k);
    forall i | 0 <= i < p ensures !Before(k, keys[i]) {
      ComparExact(k, keys[i]);
    }
    if p < |keys| {
      ComparExact(k, keys[p]);
      if Before(keys[p], k) {
        assert Before(r[p + 1], r[p]);
      } else {
        forall j | p <= j < |keys| ensures !Before(keys[j], k) {
          if j > p { assert !Before(keys[j], keys[p]); }
        }
      }
    }
    if p < |keys| ==> !Before(keys[p], k) {
      forall i, j | 0 <= i < j < |r| ensures !Before(r[j], r[i]) {
        if j == p {
          assert r[i] == keys[i];
        } else if i == p {
          assert r[j] == keys[j - 1];
        } else {
          var i', j' := if i < p then i else i - 1, if j < p then j else j - 1;
          assert !Before(keys[j'], keys[i']);
        }
      }
    }
  }

  lemma PlaceIs(keys: seq<Key>, k: Key, p: nat)
    requires p <= |keys| && (forall i :: 0 <= i < p ==> Compar(k, keys[i]) >= 0)
    requires p < |keys| ==> Compar(k, keys[p]) < 0
    ensures PlaceOf(keys, k) == p
  {
  }

  lemma InsertedIs<T>(s: seq<T>, p: nat, x: T)
    requires p <= |s|
    ensures Inserted(s, p, x) == s[..p] + [x] + s[p..]
  {
  }
}
