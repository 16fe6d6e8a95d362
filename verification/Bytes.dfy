// Byte strings and the few notions every decoder below shares.
module Bytes {

  datatype Option<+T> = None | Some(value: T)

  type byte = b: int | 0 <= b < 256
  type Data = seq<byte>

  // Two bytes in network order.
  function Be16(s: Data): (n: nat)
    requires |s| == 2
    ensures n < 0x1_0000
  {
    256 * (s[0] as int) + s[1] as int
  }

  // The concatenation of a run of chunks, in arrival order.
  function Flatten<T>(chunks: seq<seq<T>>): seq<T> {
    if chunks == [] then [] else chunks[0] + Flatten(chunks[1..])
  }

  lemma ConcatAssociative<T>(a: seq<T>, b: seq<T>, c: seq<T>)
    ensures a + (b + c) == (a + b) + c
  {
  }

  lemma {:induction false} FlattenAppend<T>(a: seq<seq<T>>, b: seq<seq<T>>)
    ensures Flatten(a + b) == Flatten(a) + Flatten(b)
  {
    if a == [] {
      assert a + b == b;
    } else {
      assert (a + b)[1..] == a[1..] + b;
      FlattenAppend(a[1..], b);
    }
  }

  ghost predicate IsAt(text: Data, needle: Data, i: nat) {
    i + |needle| <= |text| && text[i..i + |needle|] == needle
  }

  // Single-pattern search.
  function Find(text: Data, needle: Data): (r: Option<nat>)
    ensures r.Some? ==> r.value + |needle| <= |text|
  {
    FindFrom(text, needle, 0)
  }

  function FindFrom(text: Data, needle: Data, from: nat): (r: Option<nat>)
    ensures r.Some? ==> from <= r.value && r.value + |needle| <= |text|
    decreases |text| + 1 - from
  {
    if from + |needle| > |text| then None
    else if text[from..from + |needle|] == needle then Some(from)
    else FindFrom(text, needle, from + 1)
  }

  // i is the first position at which the needle occurs, if there is one.
  ghost predicate IsFirst(text: Data, needle: Data, i: Option<nat>) {
    match i
    case None => forall j: nat :: !IsAt(text, needle, j)
    case Some(i) => IsAt(text, needle, i) && forall j: nat :: j < i ==> !IsAt(text, needle, j)
  }

  lemma FindIsFirst(text: Data, needle: Data)
    ensures IsFirst(text, needle, Find(text, needle))
  {
    FindFromIsFirst(text, needle, 0);
  }

  lemma {:induction false} FindFromIsFirst(text: Data, needle: Data, from: nat)
    ensures var r := FindFrom(text, needle, from);
      && (r.Some? ==> IsAt(text, needle, r.value) && forall j: nat :: from <= j < r.value ==> !IsAt(text, needle, j))
      && (r.None? ==> forall j: nat :: from <= j ==> !IsAt(text, needle, j))
    decreases |text| + 1 - from
  {
    if from + |needle| <= |text| && text[from..from + |needle|] != needle {
      FindFromIsFirst(text, needle, from + 1);
    }
  }
}
