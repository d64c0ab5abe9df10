/** Prefix-free encodings: what a reader that works through a buffer from the front can recover.
    The parsers of the binary protocol are specified by these definitions alone, in terms of the
    matching serializer. */
module Codec {
  import opened Bytes

  /** No valid value's bytes begin with another valid value's bytes. */
  ghost predicate PrefixFree<T(!new)>(enc: T -> seq<bv8>, valid: T -> bool) {
    forall x, y | valid(x) && valid(y) && enc(x) <= enc(y) :: x == y
  }

  /** The value whose bytes a payload begins with, if there is one. */
  ghost function Decoded<T(!new)>(enc: T -> seq<bv8>, valid: T -> bool, payload: seq<bv8>): (r: Option<T>)
    ensures r.Some? ==> valid(r.value) && enc(r.value) <= payload
    ensures r.None? ==> !exists v :: valid(v) && enc(v) <= payload
  {
    if exists v :: valid(v) && enc(v) <= payload then
      var v :| valid(v) && enc(v) <= payload;
      Some(v)
    else
      None
  }

  /** Two valid values read from the front of one buffer are the same value. */
  lemma FirstUnique<T(!new)>(enc: T -> seq<bv8>, valid: T -> bool, x: T, y: T, payload: seq<bv8>)
    requires PrefixFree(enc, valid)
    requires valid(x) && valid(y) && enc(x) <= payload && enc(y) <= payload
    ensures x == y
  {
    if |enc(x)| <= |enc(y)| {
      assert enc(x) == payload[..|enc(x)|] == enc(y)[..|enc(x)|];
      assert enc(x) <= enc(y);
    } else {
      assert enc(y) == payload[..|enc(y)|] == enc(x)[..|enc(y)|];
      assert enc(y) <= enc(x);
    }
  }

  lemma DecodedIs<T(!new)>(enc: T -> seq<bv8>, valid: T -> bool, v: T, payload: seq<bv8>)
    requires PrefixFree(enc, valid) && valid(v) && enc(v) <= payload
    ensures Decoded(enc, valid, payload) == Some(v)
  {
    FirstUnique(enc, valid, v, Decoded(enc, valid, payload).value, payload);
  }

  /** Serializing and parsing are inverse, the parser accepts only what the serializer writes,
      bytes appended to an accepted payload change nothing, and a payload cut short is rejected. */
  lemma PrefixFreeCodec<T(!new)>(enc: T -> seq<bv8>, valid: T -> bool)
    requires PrefixFree(enc, valid)
    ensures forall v, rest | valid(v) :: Decoded(enc, valid, enc(v) + rest) == Some(v)
    ensures forall p: seq<bv8> | Decoded(enc, valid, p).Some? :: enc(Decoded(enc, valid, p).value) <= p
    ensures forall p, rest: seq<bv8> | Decoded(enc, valid, p).Some? ::
              Decoded(enc, valid, p + rest) == Decoded(enc, valid, p)
    ensures forall v, n: nat | valid(v) && n < |enc(v)| :: Decoded(enc, valid, enc(v)[..n]) == None
  {
    forall v, rest | valid(v)
      ensures Decoded(enc, valid, enc(v) + rest) == Some(v)
    {
      DecodedIs(enc, valid, v, enc(v) + rest);
    }
    forall p, rest: seq<bv8> | Decoded(enc, valid, p).Some?
      ensures Decoded(enc, valid, p + rest) == Decoded(enc, valid, p)
    {
      DecodedIs(enc, valid, Decoded(enc, valid, p).value, p + rest);
    }
    forall v, n: nat | valid(v) && n < |enc(v)|
      ensures Decoded(enc, valid, enc(v)[..n]) == None
    {
      if Decoded(enc, valid, enc(v)[..n]).Some? {
        assert false;
      }
    }
  }

  /** An encoding followed by more: both parts can be told apart. */
  lemma SplitFirst<T(!new)>(enc: T -> seq<bv8>, valid: T -> bool, x: T, r: seq<bv8>, y: T, s: seq<bv8>)
    requires PrefixFree(enc, valid) && valid(x) && valid(y)
    requires enc(x) + r <= enc(y) + s
    ensures x == y && r <= s
  {
    var p := enc(y) + s;
    assert enc(x) == (enc(x) + r)[..|enc(x)|] == p[..|enc(x)|];
    FirstUnique(enc, valid, x, y, p);
    assert r == (enc(x) + r)[|enc(x)|..];
    assert s == p[|enc(x)|..];
  }

  // ---------------------------------------------------------------------------------------------
  // Lists with a count in front
  // ---------------------------------------------------------------------------------------------

  function EncodeAll<T>(enc: T -> seq<bv8>, xs: seq<T>): seq<bv8> {
    if xs == [] then [] else enc(xs[0]) + EncodeAll(enc, xs[1..])
  }

  function EncodeList<T>(enc: T -> seq<bv8>, xs: seq<T>): seq<bv8> {
    BigEndian(Trunc32(|xs|)) + EncodeAll(enc, xs)
  }

  ghost predicate ValidList<T>(valid: T -> bool, xs: seq<T>) {
    |xs| < TWO_32 && forall x | x in xs :: valid(x)
  }

  lemma {:induction false} EncodeAllAppend<T>(enc: T -> seq<bv8>, xs: seq<T>, ys: seq<T>)
    ensures EncodeAll(enc, xs + ys) == EncodeAll(enc, xs) + EncodeAll(enc, ys)
    decreases |xs|
  {
    if xs == [] {
      assert xs + ys == ys;
    } else {
      assert (xs + ys)[1..] == xs[1..] + ys;
      EncodeAllAppend(enc, xs[1..], ys);
    }
  }

  lemma EncodeAllPush<T>(enc: T -> seq<bv8>, xs: seq<T>, x: T)
    ensures EncodeAll(enc, xs + [x]) == EncodeAll(enc, xs) + enc(x)
  {
    EncodeAllAppend(enc, xs, [x]);
    assert [x][1..] == [];
    assert EncodeAll(enc, [x]) == enc(x) + [];
  }

  lemma {:induction false} AllUnique<T(!new)>(enc: T -> seq<bv8>, valid: T -> bool, xs: seq<T>, ys: seq<T>,
                                              r: seq<bv8>, s: seq<bv8>)
    requires PrefixFree(enc, valid) && |xs| == |ys|
    requires (forall x | x in xs :: valid(x)) && (forall y | y in ys :: valid(y))
    requires EncodeAll(enc, xs) + r <= EncodeAll(enc, ys) + s
    ensures xs == ys && r <= s
    decreases |xs|
  {
    if xs == [] {
      assert [] + r == r && [] + s == s;
    } else {
      var a, b := EncodeAll(enc, xs[1..]), EncodeAll(enc, ys[1..]);
      assert EncodeAll(enc, xs) + r == enc(xs[0]) + (a + r);
      assert EncodeAll(enc, ys) + s == enc(ys[0]) + (b + s);
      SplitFirst(enc, valid, xs[0], a + r, ys[0], b + s);
      AllUnique(enc, valid, xs[1..], ys[1..], r, s);
    }
  }

  lemma PrefixOfTail(head: seq<bv8>, body: seq<bv8>, payload: seq<bv8>)
    requires head + body <= payload
    ensures head == payload[..|head|] && body <= payload[|head|..]
    ensures head + body == payload ==> body == payload[|head|..]
  {
    assert head == (head + body)[..|head|];
    assert body == (head + body)[|head|..];
  }

  lemma ListParts<T>(enc: T -> seq<bv8>, xs: seq<T>, payload: seq<bv8>)
    requires |xs| < TWO_32 && EncodeList(enc, xs) <= payload
    ensures |payload| >= 4 && payload[..4] == BigEndian(|xs|) && EncodeAll(enc, xs) <= payload[4..]
    ensures EncodeList(enc, xs) == payload ==> EncodeAll(enc, xs) == payload[4..]
  {
    hide BigEndian, EncodeAll;
    PrefixOfTail(BigEndian(|xs|), EncodeAll(enc, xs), payload);
  }

  lemma ListElements<T>(valid: T -> bool, xs: seq<T>)
    requires ValidList(valid, xs)
    ensures |xs| < TWO_32 && forall x | x in xs :: valid(x)
  {
  }

  lemma ListPrefixFree<T(!new)>(enc: T -> seq<bv8>, valid: T -> bool)
    requires PrefixFree(enc, valid)
    ensures PrefixFree((xs: seq<T>) => EncodeList(enc, xs), (xs: seq<T>) => ValidList(valid, xs))
  {
    forall xs: seq<T>, ys: seq<T>
      | ValidList(valid, xs) && ValidList(valid, ys) && EncodeList(enc, xs) <= EncodeList(enc, ys)
      ensures xs == ys
    {
      hide *;
      var p := EncodeList(enc, ys);
      ListElements(valid, xs);
      ListElements(valid, ys);
      ListParts(enc, xs, p);
      ListParts(enc, ys, p);
      BigEndianInjective(|xs|, |ys|);
      assert p[4..] == EncodeAll(enc, ys);
      assert EncodeAll(enc, xs) + [] <= EncodeAll(enc, ys) + [];
      AllUnique(enc, valid, xs, ys, [], []);
    }
  }

  /** If a whole list is there and its first elements have been read, its next element comes next. */
  lemma NextElementHere<T(!new)>(enc: T -> seq<bv8>, valid: T -> bool, payload: seq<bv8>,
                                 xs: seq<T>, read: seq<T>, offset: nat)
    requires PrefixFree(enc, valid)
    requires |read| < |xs| && (forall x | x in xs :: valid(x)) && (forall x | x in read :: valid(x))
    requires EncodeAll(enc, xs) <= payload
    requires offset <= |payload| && payload[..offset] == EncodeAll(enc, read)
    ensures enc(xs[|read|]) <= payload[offset..]
  {
    var k := |read|;
    var rest := EncodeAll(enc, xs[k..]);
    assert xs == xs[..k] + xs[k..];
    EncodeAllAppend(enc, xs[..k], xs[k..]);
    assert payload == EncodeAll(enc, read) + payload[offset..];
    assert EncodeAll(enc, xs[..k]) + rest <= EncodeAll(enc, read) + payload[offset..];
    AllUnique(enc, valid, xs[..k], read, rest, payload[offset..]);
    assert rest == enc(xs[k]) + EncodeAll(enc, xs[k..][1..]);
  }

  lemma NoElementsHere<T(!new)>(enc: T -> seq<bv8>, valid: T -> bool, tail: seq<bv8>, count: nat,
                                read: seq<T>, offset: nat)
    requires PrefixFree(enc, valid)
    requires |read| < count && (forall x | x in read :: valid(x))
    requires offset <= |tail| && tail[..offset] == EncodeAll(enc, read)
    requires !exists x :: valid(x) && enc(x) <= tail[offset..]
    ensures !exists xs: seq<T> :: |xs| == count && (forall x | x in xs :: valid(x)) && EncodeAll(enc, xs) <= tail
  {
    hide *;
    forall xs: seq<T> | |xs| == count && (forall x | x in xs :: valid(x)) && EncodeAll(enc, xs) <= tail
      ensures false
    {
      NextElementHere(enc, valid, tail, xs, read, offset);
    }
  }

  /** A parser that has read the first elements and then finds no element
      has shown that no list of that length is there. */
  lemma NoListHere<T(!new)>(enc: T -> seq<bv8>, valid: T -> bool, payload: seq<bv8>, count: nat,
                            read: seq<T>, offset: nat)
    requires PrefixFree(enc, valid)
    requires 4 <= offset <= |payload| && count < TWO_32 && payload[..4] == BigEndian(count)
    requires |read| < count && (forall x | x in read :: valid(x))
    requires payload[4..offset] == EncodeAll(enc, read)
    requires !exists x :: valid(x) && enc(x) <= payload[offset..]
    ensures !exists xs: seq<T> :: ValidList(valid, xs) && EncodeList(enc, xs) <= payload
  {
    hide *;
    var tail := payload[4..];
    assert tail[..offset - 4] == payload[4..offset];
    assert tail[offset - 4..] == payload[offset..];
    NoElementsHere(enc, valid, tail, count, read, offset - 4);
    forall xs: seq<T> | ValidList(valid, xs) && EncodeList(enc, xs) <= payload
      ensures false
    {
      ListElements(valid, xs);
      ListParts(enc, xs, payload);
      BigEndianInjective(|xs|, count);
    }
  }

  /** A parser that has read as many elements as counted has read the list. */
  lemma ListHere<T(!new)>(enc: T -> seq<bv8>, valid: T -> bool, payload: seq<bv8>, read: seq<T>, offset: nat)
    requires 4 <= offset <= |payload| && |read| < TWO_32 && payload[..4] == BigEndian(|read|)
    requires forall x | x in read :: valid(x)
    requires payload[4..offset] == EncodeAll(enc, read)
    ensures ValidList(valid, read) && EncodeList(enc, read) <= payload
  {
    hide BigEndian, EncodeAll;
    assert payload[..4] + payload[4..offset] == payload[..offset];
  }
}
