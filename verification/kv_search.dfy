/** The order of key/value pairs, and looking a key up in a sorted or unsorted vector. */
module KvSearch {
  import opened Bytes
  import opened KvVec

  /** memcmp(3) over two strings of the same length. */
  function Memcmp(a: seq<Byte>, b: seq<Byte>): int
    requires |a| == |b|
  {
    if a == [] then 0 else if a[0] != b[0] then a[0] - b[0] else Memcmp(a[1..], b[1..])
  }

  /** val_compare: by the common prefix, then by length. */
  function ValCompare(a: seq<Byte>, b: seq<Byte>): int {
    var prefix := if |a| > |b| then |b| else |a|;
    var diff := Memcmp(a[..prefix], b[..prefix]);
    if diff != 0 then diff else |a| - |b|
  }

  /** kv_compare: by key, then by value. */
  function KvCompare(a: KeyValue, b: KeyValue): int {
    var ret := ValCompare(a.key, b.key);
    if ret != 0 then ret else ValCompare(a.value, b.value)
  }

  /** The same order, byte by byte: the shorter string first, else the smaller byte. */
  ghost predicate Before(a: seq<Byte>, b: seq<Byte>) {
    b != [] && (a == [] || a[0] < b[0] || (a[0] == b[0] && Before(a[1..], b[1..])))
  }

  lemma {:induction false} ValCompareIsOrder(a: seq<Byte>, b: seq<Byte>)
    ensures ValCompare(a, b) < 0 <==> Before(a, b)
    ensures ValCompare(a, b) > 0 <==> Before(b, a)
    ensures ValCompare(a, b) == 0 <==> a == b
  {
    if a != [] && b != [] {
      var n := if |a| > |b| then |b| else |a|;
      assert a[..n][1..] == a[1..][..n - 1] && b[..n][1..] == b[1..][..n - 1];
      ValCompareIsOrder(a[1..], b[1..]);
      assert a[0] == b[0] && a[1..] == b[1..] ==> a == [a[0]] + a[1..] == b;
    }
  }

  lemma {:induction false} BeforeIsTransitive(a: seq<Byte>, b: seq<Byte>, c: seq<Byte>)
    requires Before(a, b) && (Before(b, c) || b == c)
    ensures Before(a, c)
  {
    if b != c && a != [] && a[0] == b[0] == c[0] {
      BeforeIsTransitive(a[1..], b[1..], c[1..]);
    }
  }

  /** The pair order goes by keys first, is total, and equal only for equal pairs: sorting has
      one outcome. */
  lemma KvCompareIsTotal(a: KeyValue, b: KeyValue, c: KeyValue)
    ensures KvCompare(a, b) < 0 <==> Before(a.key, b.key) || (a.key == b.key && Before(a.value, b.value))
    ensures KvCompare(a, b) == 0 <==> a == b
    ensures KvCompare(a, b) < 0 <==> KvCompare(b, a) > 0
    ensures KvCompare(a, b) <= 0 && KvCompare(b, c) <= 0 ==> KvCompare(a, c) <= 0
  {
    hide Before;
    ValCompareIsOrder(a.key, b.key);
    ValCompareIsOrder(b.key, a.key);
    ValCompareIsOrder(b.key, c.key);
    ValCompareIsOrder(a.key, c.key);
    ValCompareIsOrder(a.value, b.value);
    ValCompareIsOrder(b.value, a.value);
    ValCompareIsOrder(b.value, c.value);
    ValCompareIsOrder(a.value, c.value);
    if Before(a.key, b.key) && (Before(b.key, c.key) || b.key == c.key) { BeforeIsTransitive(a.key, b.key, c.key); }
    if Before(a.value, b.value) && (Before(b.value, c.value) || b.value == c.value) {
      BeforeIsTransitive(a.value, b.value, c.value);
    }
  }

  /** What qsort leaves behind. */
  ghost predicate InOrder(kvs: seq<KeyValue>) {
    forall i, j :: 0 <= i < j < |kvs| ==> KvCompare(kvs[i], kvs[j]) <= 0
  }

  /** In a sorted vector, what comes before a smaller key is smaller, and so on upwards. */
  lemma KeysAscend(kvs: seq<KeyValue>, i: nat, j: nat, key: seq<Byte>)
    requires InOrder(kvs) && i <= j < |kvs|
    ensures ValCompare(kvs[j].key, key) < 0 ==> kvs[i].key != key
    ensures ValCompare(kvs[i].key, key) > 0 ==> kvs[j].key != key
  {
    ValCompareIsOrder(kvs[i].key, kvs[j].key);
    ValCompareIsOrder(kvs[j].key, key);
    ValCompareIsOrder(kvs[i].key, key);
    ValCompareIsOrder(kvs[j].key, kvs[i].key);
    if i < j { assert KvCompare(kvs[i], kvs[j]) <= 0; }
  }

  /** kvvec_fetch: binary search when sorted, else the first match.  Either way the key is
      found exactly when it is there. */
  method Fetch(kvs: seq<KeyValue>, isSorted: bool, key: seq<Byte>) returns (at: int)
    requires isSorted ==> InOrder(kvs)
    ensures at == -1 || (0 <= at < |kvs| && kvs[at].key == key)
    ensures at == -1 ==> forall i :: 0 <= i < |kvs| ==> kvs[i].key != key
    ensures !isSorted && at != -1 ==> forall i :: 0 <= i < at ==> kvs[i].key != key
  {
    hide ValCompare, KvCompare;
    if isSorted {
      var low, high := 0, |kvs|;
      while low < high
        invariant 0 <= low <= high <= |kvs|
        invariant forall i :: 0 <= i < low || high <= i < |kvs| ==> kvs[i].key != key
      {
        var mid := (low + high) / 2;
        var diff := ValCompare(kvs[mid].key, key);
        ValCompareIsOrder(kvs[mid].key, key);
        if diff > 0 {
          forall i | mid <= i < |kvs| ensures kvs[i].key != key { KeysAscend(kvs, mid, i, key); }
          high := mid;
        } else if diff < 0 {
          forall i | 0 <= i <= mid ensures kvs[i].key != key { KeysAscend(kvs, i, mid, key); }
          low := mid + 1;
        } else {
          return mid;
        }
      }
      return -1;
    }
    for i := 0 to |kvs|
      invariant forall j :: 0 <= j < i ==> kvs[j].key != key
    {
      if kvs[i].key == key {
        return i;
      }
    }
    return -1;
  }
}
