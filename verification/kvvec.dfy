/** Key/value vectors and their flat form, the payload of every message
    between the core and its workers. */
module KvVec {
  import opened Bytes

  datatype KeyValue = KeyValue(key: seq<Byte>, value: seq<Byte>)

  /** One pair in flat form: key, separator, value, terminator. */
  function EncodePair(kv: KeyValue, kvSep: Byte, pairSep: Byte): seq<Byte> {
    kv.key + [kvSep] + kv.value + [pairSep]
  }

  ghost function Encode(kvs: seq<KeyValue>, kvSep: Byte, pairSep: Byte): seq<Byte> {
    if kvs == [] then [] else Encode(kvs[..|kvs| - 1], kvSep, pairSep) + EncodePair(kvs[|kvs| - 1], kvSep, pairSep)
  }

  /** The pairs the flat form can carry: no separator where it would be taken for one. */
  predicate Encodable(kv: KeyValue, kvSep: Byte, pairSep: Byte) {
    && kvSep !in kv.key && pairSep !in kv.key && pairSep !in kv.value
    && (kv.key + [kvSep])[0] != 0
  }

  /** Two pairs in a row, as in "k=v;l=w;". */
  lemma EncodeTwo(a: KeyValue, b: KeyValue, kvSep: Byte, pairSep: Byte)
    ensures Encode([a, b], kvSep, pairSep)
         == a.key + [kvSep] + a.value + [pairSep] + b.key + [kvSep] + b.value + [pairSep]
  {
    assert [a, b][..1] == [a] && [a][..0] == [];
    assert Encode([a], kvSep, pairSep) == EncodePair(a, kvSep, pairSep);
  }

  lemma EncodeNext(kvs: seq<KeyValue>, i: nat, kvSep: Byte, pairSep: Byte)
    requires i < |kvs|
    ensures Encode(kvs[..i + 1], kvSep, pairSep) == Encode(kvs[..i], kvSep, pairSep) + EncodePair(kvs[i], kvSep, pairSep)
  {
    assert kvs[..i + 1][..i] == kvs[..i];
  }

  lemma NothingEncoded(kvs: seq<KeyValue>, kvSep: Byte, pairSep: Byte)
    requires Encode(kvs, kvSep, pairSep) == []
    ensures kvs == []
  {
  }

  lemma {:induction false} EncodeIsPrefix(kvs: seq<KeyValue>, i: nat, kvSep: Byte, pairSep: Byte)
    requires i <= |kvs|
    ensures |Encode(kvs[..i], kvSep, pairSep)| <= |Encode(kvs, kvSep, pairSep)|
    ensures Encode(kvs, kvSep, pairSep)[..|Encode(kvs[..i], kvSep, pairSep)|] == Encode(kvs[..i], kvSep, pairSep)
    decreases |kvs|
  {
    if i == |kvs| {
      assert kvs[..i] == kvs;
    } else {
      var front := kvs[..|kvs| - 1];
      EncodeIsPrefix(front, i, kvSep, pairSep);
      assert front[..i] == kvs[..i];
    }
  }

  /** A growing vector of pairs. */
  class Vector {
    var kv: array<KeyValue>
    var pairs: nat

    ghost predicate Valid()
      reads this
    {
      pairs <= kv.Length
    }

    ghost function Contents(): seq<KeyValue>
      reads this, kv
      requires Valid()
    {
      kv[..pairs]
    }

    constructor (hint: nat)
      ensures Valid() && Contents() == [] && fresh(kv)
    {
      kv := new KeyValue[hint](_ => KeyValue([], []));
      pairs := 0;
    }

    method Resize(hint: nat)
      requires Valid()
      modifies this`kv
      ensures Valid() && Contents() == old(Contents())
      ensures kv.Length == (if hint <= old(kv.Length) then old(kv.Length) else hint)
      ensures kv == old(kv) || fresh(kv)
    {
      if hint <= kv.Length {
        return;
      }
      var was := kv;
      kv := new KeyValue[hint](i requires 0 <= i reads was => if i < was.Length then was[i] else KeyValue([], []));
      assert forall i :: 0 <= i < pairs ==> kv[i] == was[i];
    }

    method Grow(hint: nat)
      requires Valid()
      modifies this`kv
      ensures Valid() && Contents() == old(Contents())
      ensures kv.Length == old(kv.Length) + (if hint == 0 then old(kv.Length) / 3 + 15 else hint)
      ensures fresh(kv)
    {
      var more := if hint == 0 then kv.Length / 3 + 15 else hint;
      Resize(kv.Length + more);
    }

    method AddKv(key: seq<Byte>, value: seq<Byte>)
      requires Valid()
      modifies this, kv
      ensures Valid() && Contents() == old(Contents()) + [KeyValue(key, value)]
      ensures kv == old(kv) || fresh(kv)
    {
      if pairs >= kv.Length - 1 {
        Grow(0);
      }
      Store(KeyValue(key, value));
    }

    method Store(pair: KeyValue)
      requires Valid() && pairs < kv.Length
      modifies this`pairs, kv
      ensures Valid() && pairs == old(pairs) + 1 && Contents() == old(Contents()) + [pair]
    {
      kv[pairs] := pair;
      pairs := pairs + 1;
    }

    /** Flat form of the vector, with room to spare: one pass sizes the buffer,
        the next fills it, exactly. */
    method ToBuf(kvSep: Byte, pairSep: Byte, overalloc: nat) returns (buf: array<Byte>, buflen: nat)
      requires Valid()
      ensures fresh(buf) && buf.Length == buflen + overalloc
      ensures buf[..buflen] == Encode(Contents(), kvSep, pairSep)
      ensures forall k :: buflen <= k < buf.Length ==> buf[k] == 0
    {
      ghost var kvs := Contents();
      var bufsize := overalloc + pairs * 2;
      var i := 0;
      while i < pairs
        invariant 0 <= i <= pairs
        invariant bufsize == overalloc + (pairs - i) * 2 + |Encode(kvs[..i], kvSep, pairSep)|
      {
        EncodeNext(kvs, i, kvSep, pairSep);
        bufsize := bufsize + |kv[i].key| + |kv[i].value|;
        i := i + 1;
      }
      assert kvs[..pairs] == kvs;
      buf := new Byte[bufsize](_ => 0);
      var len := 0;
      i := 0;
      while i < pairs
        invariant 0 <= i <= pairs && len == |Encode(kvs[..i], kvSep, pairSep)|
        invariant len + overalloc <= buf.Length && buf.Length == overalloc + |Encode(kvs, kvSep, pairSep)|
        invariant buf[..len] == Encode(kvs[..i], kvSep, pairSep)
        invariant Contents() == kvs
        invariant forall k :: len <= k < buf.Length ==> buf[k] == 0
      {
        EncodeNext(kvs, i, kvSep, pairSep);
        EncodeIsPrefix(kvs, i + 1, kvSep, pairSep);
        len := PutPair(buf, len, kv[i], kvSep, pairSep);
        i := i + 1;
      }
      buflen := len;
    }
  }

  /** memcpy(3) into a buffer, behind what is there. */
  method Put(buf: array<Byte>, at: nat, src: seq<Byte>) returns (end: nat)
    requires at + |src| <= buf.Length
    modifies buf
    ensures end == at + |src| && buf[..end] == old(buf[..at]) + src
    ensures forall k :: end <= k < buf.Length ==> buf[k] == old(buf[k])
  {
    forall k | 0 <= k < |src| {
      buf[at + k] := src[k];
    }
    return at + |src|;
  }

  method PutPair(buf: array<Byte>, at: nat, kv: KeyValue, kvSep: Byte, pairSep: Byte) returns (end: nat)
    requires at + |EncodePair(kv, kvSep, pairSep)| <= buf.Length
    modifies buf
    ensures end == at + |EncodePair(kv, kvSep, pairSep)|
    ensures buf[..end] == old(buf[..at]) + EncodePair(kv, kvSep, pairSep)
    ensures forall k :: end <= k < buf.Length ==> buf[k] == old(buf[k])
  {
    ghost var was := buf[..at];
    end := Put(buf, at, kv.key);
    end := Put(buf, end, [kvSep]);
    if |kv.value| != 0 {
      end := Put(buf, end, kv.value);
    }
    end := Put(buf, end, [pairSep]);
    assert buf[..end] == was + kv.key + [kvSep] + kv.value + [pairSep];
  }

  /** What parsing in place leaves behind: every key, and every value that is
      not empty, has become a C string where it stands. */
  ghost function Terminated(kvs: seq<KeyValue>, pairSep: Byte): seq<Byte> {
    if kvs == [] then [] else Terminated(kvs[..|kvs| - 1], pairSep) + TerminatedPair(kvs[|kvs| - 1], pairSep)
  }

  ghost function TerminatedPair(kv: KeyValue, pairSep: Byte): seq<Byte> {
    kv.key + [0] + kv.value + [if kv.value == [] then pairSep else 0]
  }

  /** Where the i-th pair stands in the flat form. */
  ghost function PairStart(kvs: seq<KeyValue>, i: nat, kvSep: Byte, pairSep: Byte): nat
    requires i <= |kvs|
  {
    |Encode(kvs[..i], kvSep, pairSep)|
  }

  /** The pairs lie end to end. */
  lemma PairStands(kvs: seq<KeyValue>, i: nat, kvSep: Byte, pairSep: Byte)
    requires i < |kvs|
    ensures var s, p, e := Encode(kvs, kvSep, pairSep), PairStart(kvs, i, kvSep, pairSep), EncodePair(kvs[i], kvSep, pairSep);
      && p + |e| == PairStart(kvs, i + 1, kvSep, pairSep) <= |s|
      && (i + 1 == |kvs| ==> p + |e| == |s|)
      && forall k :: 0 <= k < |e| ==> s[p + k] == e[k]
  {
    hide Encode, EncodePair;
    EncodeNext(kvs, i, kvSep, pairSep);
    EncodeIsPrefix(kvs, i + 1, kvSep, pairSep);
    assert i + 1 == |kvs| ==> kvs[..i + 1] == kvs;
    InPrefix(Encode(kvs, kvSep, pairSep), Encode(kvs[..i], kvSep, pairSep), EncodePair(kvs[i], kvSep, pairSep));
  }

  lemma InPrefix(s: seq<Byte>, front: seq<Byte>, e: seq<Byte>)
    requires |front + e| <= |s| && s[..|front + e|] == front + e
    ensures forall k :: 0 <= k < |e| ==> s[|front| + k] == e[k]
  {
    forall k | 0 <= k < |e| ensures s[|front| + k] == e[k] {
      assert s[..|front + e|][|front| + k] == (front + e)[|front| + k];
    }
  }

  /** In one pair the separators a parser looks for are the first ones it meets. */
  lemma PairShape(kv: KeyValue, kvSep: Byte, pairSep: Byte)
    requires Encodable(kv, kvSep, pairSep) && kvSep != pairSep
    ensures var e, v := EncodePair(kv, kvSep, pairSep), |kv.key| + 1;
      && |e| == v + |kv.value| + 1 && e[0] != 0
      && (forall k :: 0 <= k < v - 1 ==> e[k] == kv.key[k] != kvSep) && e[v - 1] == kvSep
      && (forall k :: 0 <= k < |e| - 1 ==> e[k] != pairSep) && e[|e| - 1] == pairSep
      && (forall k :: v <= k < |e| - 1 ==> e[k] == kv.value[k - v])
  {
    var e := EncodePair(kv, kvSep, pairSep);
    assert e[0] == (kv.key + [kvSep])[0];
    assert forall k :: 0 <= k < |kv.key| ==> kv.key[k] in kv.key;
    assert forall k :: 0 <= k < |kv.value| ==> kv.value[k] in kv.value;
  }

  /** A pair stands at one place of a text, and the separators a parser looks
      for from there are the first ones it meets. */
  ghost predicate StandsAt(s: seq<Byte>, p: nat, kv: KeyValue, kvSep: Byte, pairSep: Byte) {
    var v := p + |kv.key| + 1;
    var q := v + |kv.value| + 1;
    && q <= |s| && s[p] != 0
    && s[p..v - 1] == kv.key && s[v - 1] == kvSep && (forall k :: p <= k < v - 1 ==> s[k] != kvSep)
    && s[v..q - 1] == kv.value && s[q - 1] == pairSep && (forall k :: p <= k < q - 1 ==> s[k] != pairSep)
  }

  lemma {:induction false} TerminatedIsAsLong(kvs: seq<KeyValue>, kvSep: Byte, pairSep: Byte)
    ensures |Terminated(kvs, pairSep)| == |Encode(kvs, kvSep, pairSep)|
  {
    if kvs != [] { TerminatedIsAsLong(kvs[..|kvs| - 1], kvSep, pairSep); }
  }

  /** In place, every key is a C string where its pair stands, and every value behind it that
      is not empty. */
  lemma {:induction false} StringsInPlace(kvs: seq<KeyValue>, i: nat, kvSep: Byte, pairSep: Byte)
    requires i < |kvs|
    ensures var t, p := Terminated(kvs, pairSep), PairStart(kvs, i, kvSep, pairSep);
            var v := p + |kvs[i].key| + 1;
            && v + |kvs[i].value| < |t|
            && t[p..v - 1] == kvs[i].key && t[v - 1] == 0
            && (kvs[i].value != [] ==> t[v..v + |kvs[i].value|] == kvs[i].value && t[v + |kvs[i].value|] == 0)
    decreases |kvs|
  {
    hide Encode;
    var front, last := kvs[..|kvs| - 1], kvs[|kvs| - 1];
    TerminatedIsAsLong(front, kvSep, pairSep);
    if i == |kvs| - 1 {
      PairInPlace(Terminated(front, pairSep), last, pairSep);
    } else {
      StringsInPlace(front, i, kvSep, pairSep);
      assert front[..i] == kvs[..i];
      StaysInPlace(Terminated(front, pairSep), TerminatedPair(last, pairSep));
    }
  }

  lemma PairInPlace(front: seq<Byte>, kv: KeyValue, pairSep: Byte)
    ensures var t, v := front + TerminatedPair(kv, pairSep), |front| + |kv.key| + 1;
            && v + |kv.value| + 1 == |t|
            && t[|front|..v - 1] == kv.key && t[v - 1] == 0 && t[v..v + |kv.value|] == kv.value
            && (kv.value != [] ==> t[v + |kv.value|] == 0)
  {
  }

  lemma StaysInPlace(front: seq<Byte>, more: seq<Byte>)
    ensures forall a, b :: 0 <= a <= b <= |front| ==> (front + more)[a..b] == front[a..b]
    ensures forall a :: 0 <= a < |front| ==> (front + more)[a] == front[a]
  {
  }

  lemma StandsInSuffix(s: seq<Byte>, t: seq<Byte>, p: nat, kv: KeyValue, kvSep: Byte, pairSep: Byte)
    requires StandsAt(s, p, kv, kvSep, pairSep) && |s| == |t|
    requires forall k :: p <= k < |s| ==> t[k] == s[k]
    ensures p < |t| && t[p] != 0 && StandsAt(t, p, kv, kvSep, pairSep)
  {
  }

  lemma TerminatedNext(kvs: seq<KeyValue>, i: nat, pairSep: Byte)
    requires i < |kvs|
    ensures Terminated(kvs[..i + 1], pairSep) == Terminated(kvs[..i], pairSep) + TerminatedPair(kvs[i], pairSep)
  {
    assert kvs[..i + 1][..i] == kvs[..i];
  }

  lemma PairAt(kvs: seq<KeyValue>, i: nat, kvSep: Byte, pairSep: Byte)
    requires i < |kvs| && Encodable(kvs[i], kvSep, pairSep) && kvSep != pairSep
    ensures StandsAt(Encode(kvs, kvSep, pairSep), PairStart(kvs, i, kvSep, pairSep), kvs[i], kvSep, pairSep)
    ensures var q := PairStart(kvs, i, kvSep, pairSep) + |kvs[i].key| + |kvs[i].value| + 2;
      && q == PairStart(kvs, i + 1, kvSep, pairSep) <= |Encode(kvs, kvSep, pairSep)|
      && (i + 1 == |kvs| ==> q == |Encode(kvs, kvSep, pairSep)|)
  {
    hide Encode, EncodePair, PairStart;
    PairStands(kvs, i, kvSep, pairSep);
    PairShape(kvs[i], kvSep, pairSep);
    var s, p, e := Encode(kvs, kvSep, pairSep), PairStart(kvs, i, kvSep, pairSep), EncodePair(kvs[i], kvSep, pairSep);
    forall k | p <= k < p + |e| ensures s[k] == e[k - p] {
      assert s[p + (k - p)] == e[k - p];
    }
    assert s[p + 0] == e[0];
  }

  /** Looks for the separator after a key and the terminator after its value. */
  method FindPair(data: seq<Byte>, start: nat, len: nat, kvSep: Byte, pairSep: Byte, ghost kv: KeyValue)
    returns (keyEnd: nat, kvEnd: nat)
    requires len <= |data| && StandsAt(data[..len], start, kv, kvSep, pairSep) && kvSep != pairSep
    ensures keyEnd == start + |kv.key| && kvEnd == keyEnd + 1 + |kv.value| < len
    ensures data[start..keyEnd] == kv.key && data[keyEnd + 1..kvEnd] == kv.value
    ensures data[keyEnd + 1] != pairSep <==> kv.value != []
    ensures data[keyEnd] == kvSep && data[kvEnd] == pairSep
  {
    ghost var v := start + |kv.key| + 1;
    ghost var q := v + |kv.value| + 1;
    assert forall k :: start <= k < q ==> data[k] == data[..len][k];
    keyEnd := Memchr(data, start, len - start, kvSep);
    assert data[q - 1] == pairSep && data[v - 1] == kvSep;
    assert keyEnd == v - 1;
    kvEnd := Memchr(data, keyEnd + 1, len - keyEnd, pairSep);
  }

  /** Parses one pair. */
  method ParsePair(str: array<Byte>, len: nat, start: nat, kvSep: Byte, pairSep: Byte, copy: bool, ghost kv: KeyValue)
    returns (key: seq<Byte>, value: seq<Byte>, end: nat)
    requires len <= str.Length && StandsAt(str[..len], start, kv, kvSep, pairSep) && kvSep != pairSep
    modifies str
    ensures KeyValue(key, value) == kv && end == start + |key| + |value| + 2 <= str.Length
    ensures copy ==> str[..] == old(str[..])
    ensures !copy ==> str[..end] == old(str[..start]) + TerminatedPair(kv, pairSep)
    ensures forall k :: end <= k < str.Length ==> str[k] == old(str[k])
  {
    assert str[..][..len] == str[..len];
    hide StandsAt, TerminatedPair;
    ghost var was := str[..];
    var keyEnd, kvEnd := FindPair(str[..], start, len, kvSep, pairSep, kv);
    assert was[start..keyEnd] == str[start..keyEnd] && was[keyEnd + 1..kvEnd] == str[keyEnd + 1..kvEnd];
    key, value := str[start..keyEnd], [];
    if !copy {
      str[keyEnd] := 0;
    }
    end := keyEnd + 1;
    if str[end] != pairSep {
      value := str[end..kvEnd];
      if !copy {
        str[kvEnd] := 0;
      }
    }
    end := end + |value| + 1;
    if !copy { Assembled(was, str[..], start, kv, pairSep); }
  }

  /** A text with one pair cut into C strings. */
  lemma Assembled(was: seq<Byte>, now: seq<Byte>, start: nat, kv: KeyValue, pairSep: Byte)
    requires var b, c := start + |kv.key|, start + |kv.key| + 1 + |kv.value|;
      && c < |was| == |now| && was[start..b] == kv.key && was[b + 1..c] == kv.value && was[c] == pairSep
      && now == if kv.value == [] then was[b := 0] else was[b := 0][c := 0]
    ensures now[..start + |kv.key| + |kv.value| + 2] == was[..start] + TerminatedPair(kv, pairSep)
  {
    var b, c := start + |kv.key|, start + |kv.key| + 1 + |kv.value|;
    assert now[..c + 1] == now[..start] + now[start..b] + [now[b]] + now[b + 1..c] + [now[c]];
    assert now[start..b] == was[start..b] && now[b + 1..c] == was[b + 1..c];
  }

  /** Parses the next pair and stores it. */
  method TakePair(vec: Vector, str: array<Byte>, len: nat, offset: nat, kvSep: Byte, pairSep: Byte, copy: bool,
                  ghost kvs: seq<KeyValue>) returns (end: nat)
    requires vec.Valid() && vec.pairs < |kvs| && vec.pairs < vec.kv.Length && kvSep != pairSep
    requires len <= str.Length && len == |Encode(kvs, kvSep, pairSep)|
    requires Encodable(kvs[vec.pairs], kvSep, pairSep) && offset == PairStart(kvs, vec.pairs, kvSep, pairSep)
    requires forall k :: offset <= k < len ==> str[k] == Encode(kvs, kvSep, pairSep)[k]
    modifies vec`pairs, vec.kv, str
    ensures vec.Valid() && vec.pairs == old(vec.pairs) + 1 && vec.Contents() == old(vec.Contents()) + [kvs[old(vec.pairs)]]
    ensures end == PairStart(kvs, vec.pairs, kvSep, pairSep) <= len && offset < end
    ensures copy ==> str[..] == old(str[..])
    ensures !copy ==> str[..end] == old(str[..offset]) + TerminatedPair(kvs[old(vec.pairs)], pairSep)
    ensures forall k :: end <= k < str.Length ==> str[k] == old(str[k])
  {
    hide Encode, PairStart, EncodePair, TerminatedPair, StandsAt;
    ghost var i := vec.pairs;
    PairAt(kvs, i, kvSep, pairSep);
    StandsInSuffix(Encode(kvs, kvSep, pairSep), str[..len], offset, kvs[i], kvSep, pairSep);
    if offset != 0 && str[offset] == 0 {
      assert false;  // no key begins with NUL
    }
    var key, value, next := ParsePair(str, len, offset, kvSep, pairSep, copy, kvs[i]);
    vec.Store(KeyValue(key, value));
    return next;
  }

  /** Where the first pair begins and the last one ends. */
  lemma PairsBegin(kvs: seq<KeyValue>, kvSep: Byte, pairSep: Byte)
    ensures PairStart(kvs, 0, kvSep, pairSep) == 0 && Terminated(kvs[..0], pairSep) == []
    ensures PairStart(kvs, |kvs|, kvSep, pairSep) == |Encode(kvs, kvSep, pairSep)|
    ensures kvs == [] ==> Encode(kvs, kvSep, pairSep) == []
  {
    assert kvs[..|kvs|] == kvs;
  }

  /** Parses the flat form back, either copying or in place.  The text must be
      what ToBuf makes of some vector of encodable pairs. */
  method FromBuf(vec: Vector, str: array<Byte>, len: nat, kvSep: Byte, pairSep: Byte, copy: bool,
                 ghost kvs: seq<KeyValue>) returns (ret: int)
    requires vec.Valid() && len <= str.Length && kvSep != pairSep
    requires forall i :: 0 <= i < |kvs| ==> Encodable(kvs[i], kvSep, pairSep)
    requires str[..len] == Encode(kvs, kvSep, pairSep)
    modifies vec, vec.kv, str
    ensures vec.Valid()
    ensures kvs == [] ==> ret == -1 && vec.Contents() == old(vec.Contents())
    ensures kvs != [] ==> ret == |kvs| && vec.Contents() == kvs
    ensures copy ==> str[..] == old(str[..])
    ensures !copy ==> str[..len] == Terminated(kvs, pairSep) && str[len..] == old(str[len..])
  {
    hide StandsAt, Encode, PairStart, EncodePair, Terminated, TerminatedPair, Encodable;
    PairsBegin(kvs, kvSep, pairSep);
    if len == 0 {
      NothingEncoded(kvs, kvSep, pairSep);
      return -1;
    }
    var numPairs := CountPairs(str, len, kvSep, pairSep, kvs);
    assert kvs[..|kvs|] == kvs;
    vec.pairs := 0;
    vec.Resize(numPairs);
    var offset, i := 0, 0;
    while i < numPairs
      invariant 0 <= i <= numPairs && offset == PairStart(kvs, i, kvSep, pairSep) <= len
      invariant vec.Valid() && vec.pairs == i && numPairs <= vec.kv.Length && vec.Contents() == kvs[..i]
      invariant vec.kv == old(vec.kv) || fresh(vec.kv)
      invariant forall k :: offset <= k < str.Length ==> str[k] == old(str[k])
      invariant copy ==> str[..] == old(str[..])
      invariant !copy ==> str[..offset] == Terminated(kvs[..i], pairSep)
    {
      TerminatedNext(kvs, i, pairSep);
      offset := TakePair(vec, str, len, offset, kvSep, pairSep, copy, kvs);
      assert kvs[..i] + [kvs[i]] == kvs[..i + 1];
      i := i + 1;
    }
    return i;
  }

  /** How many pairs there are: every stretch up to a terminator that does not begin with NUL. */
  method CountPairs(str: array<Byte>, len: nat, kvSep: Byte, pairSep: Byte, ghost kvs: seq<KeyValue>) returns (numPairs: nat)
    requires len <= str.Length && kvSep != pairSep
    requires forall i :: 0 <= i < |kvs| ==> Encodable(kvs[i], kvSep, pairSep)
    requires str[..len] == Encode(kvs, kvSep, pairSep)
    ensures numPairs == |kvs|
  {
    numPairs := 0;
    var offset := 0;
    ghost var i := 0;
    while offset < len
      invariant 0 <= i <= |kvs| && offset == PairStart(kvs, i, kvSep, pairSep) <= len
      invariant numPairs == i && (i == |kvs| ==> offset == len)
    {
      PairAt(kvs, i, kvSep, pairSep);
      if str[offset] != 0 {
        numPairs := numPairs + 1;
      }
      assert str[..len][PairStart(kvs, i + 1, kvSep, pairSep) - 1] == pairSep;
      var ptr := Memchr(str[..], offset, len - offset, pairSep);
      offset := ptr + 1;
      i := i + 1;
    }
    if i < |kvs| { PairAt(kvs, i, kvSep, pairSep); }
  }
}
