/**
 * The character vocabulary of the corpus: `Decode` is the sorted list of
 * the distinct characters of the text, `Encode` the dictionary that maps
 * each of them back to its position.
 */
module Vocabulary {

  /** Sorted with no character twice. */
  predicate StrictlyIncreasing(s: seq<char>)
  {
    forall i, j :: 0 <= i < j < |s| ==> s[i] < s[j]
  }

  /** No character twice; what `Dictionary.Add` needs of its keys. */
  predicate Distinct(s: seq<char>)
  {
    forall i, j :: 0 <= i < j < |s| ==> s[i] != s[j]
  }

  /** Places `c` in the sorted list `s`, unless it is there already. */
  function Insert(s: seq<char>, c: char): (r: seq<char>)
    requires StrictlyIncreasing(s)
    ensures StrictlyIncreasing(r)
    ensures forall x :: x in r <==> x in s || x == c
  {
    if s == [] then [c]
    else if c < s[0] then [c] + s
    else if c == s[0] then s
    else
      var rest := Insert(s[1..], c);
      HeadBelowTail(s);
      ConsIncreasing(s[0], rest);
      [s[0]] + rest
  }

  /** The head of a sorted list is below every element of its tail. */
  lemma HeadBelowTail(s: seq<char>)
    requires StrictlyIncreasing(s) && s != []
    ensures forall x :: x in s[1..] ==> s[0] < x
    ensures forall x :: x in s <==> x == s[0] || x in s[1..]
  {
    forall x | x in s[1..]
      ensures s[0] < x
    {
      var j :| 0 <= j < |s[1..]| && s[1..][j] == x;
      assert s[j + 1] == x;
    }
    assert s == [s[0]] + s[1..];
  }

  /** A character below every element of a sorted list can head it. */
  lemma ConsIncreasing(x: char, rest: seq<char>)
    requires StrictlyIncreasing(rest)
    requires forall y :: y in rest ==> x < y
    ensures StrictlyIncreasing([x] + rest)
    ensures forall y :: y in [x] + rest <==> y == x || y in rest
  {
    forall i, j | 0 <= i < j < |[x] + rest|
      ensures ([x] + rest)[i] < ([x] + rest)[j]
    {
      if i == 0 {
        assert rest[j - 1] in rest;
      }
    }
  }

  /** `text.Distinct().OrderBy(x => x)`: the characters of the text, sorted, each once. */
  function Decode(text: string): (d: seq<char>)
    ensures StrictlyIncreasing(d)
    ensures forall c :: c in d <==> c in text
  {
    if text == [] then []
    else
      assert forall c :: c in text <==> c == text[0] || c in text[1..];
      Insert(Decode(text[1..]), text[0])
  }

  /** `encode` is the inverse of `decode`: each is the identity after the other. */
  ghost predicate IsEncoding(encode: map<char, nat>, decode: seq<char>)
  {
    (forall i :: 0 <= i < |decode| ==> decode[i] in encode && encode[decode[i]] == i) &&
    (forall c :: c in encode ==> encode[c] < |decode| && decode[encode[c]] == c)
  }

  /** The `foreach` loop that fills the `Encode` dictionary from `Decode`. */
  method BuildEncode(decode: seq<char>) returns (encode: map<char, nat>)
    requires Distinct(decode)
    ensures forall i :: 0 <= i < |decode| ==> decode[i] in encode && encode[decode[i]] == i
    ensures forall c :: c in encode ==> encode[c] < |decode| && decode[encode[c]] == c
  {
    encode := map[];
    var i := 0;
    while i < |decode|
      invariant 0 <= i <= |decode|
      invariant forall j :: 0 <= j < i ==> decode[j] in encode && encode[decode[j]] == j
      invariant forall c :: c in encode ==> encode[c] < i && decode[encode[c]] == c
    {
      encode := encode[decode[i] := i];
      i := i + 1;
    }
  }

  /** A sorted duplicate-free list is determined by its set of elements. */
  lemma {:induction false} SortedUnique(a: seq<char>, b: seq<char>)
    requires StrictlyIncreasing(a) && StrictlyIncreasing(b)
    requires forall c :: c in a <==> c in b
    ensures a == b
  {
    assert a != [] ==> a[0] in b;
    assert b != [] ==> b[0] in a;
    if a != [] && b != [] {
      assert a[0] == b[0] by {
        assert a[0] in b;
        assert b[0] in a;
      }
      forall c
        ensures c in a[1..] <==> c in b[1..]
      {
        assert c in a[1..] <==> c in a && c != a[0];
        assert c in b[1..] <==> c in b && c != b[0];
      }
      SortedUnique(a[1..], b[1..]);
      assert a == [a[0]] + a[1..];
      assert b == [b[0]] + b[1..];
    }
  }

  /** `Decode` is the one sorted duplicate-free list of the text's characters. */
  lemma DecodeIsUnique(text: string, d: seq<char>)
    requires StrictlyIncreasing(d)
    requires forall c :: c in d <==> c in text
    ensures d == Decode(text)
  {
    SortedUnique(d, Decode(text));
  }

  lemma {:induction false} DistinctSize(s: seq<char>)
    requires Distinct(s)
    ensures |set c | c in s| == |s|
  {
    if s != [] {
      DistinctSize(s[1..]);
      assert (set c | c in s) == {s[0]} + (set c | c in s[1..]);
      assert s[0] !in s[1..];
    }
  }

  /** `size_vocab`, the length of `Decode`, is the number of distinct characters. */
  lemma VocabularySize(text: string)
    ensures |Decode(text)| == |set c | c in text|
  {
    var d := Decode(text);
    DistinctSize(d);
    assert (set c | c in d) == (set c | c in text);
  }

  /**
   * Both round trips of the vocabulary: a character of the text encodes to a
   * valid index that decodes back to it, and an index decodes to a character
   * that encodes back to it.
   */
  lemma RoundTrip(text: string, encode: map<char, nat>)
    requires IsEncoding(encode, Decode(text))
    ensures forall i :: 0 <= i < |text| ==>
      text[i] in encode && encode[text[i]] < |Decode(text)| && Decode(text)[encode[text[i]]] == text[i]
    ensures forall i :: 0 <= i < |Decode(text)| ==> Decode(text)[i] in encode && encode[Decode(text)[i]] == i
  {
    var d := Decode(text);
    forall i | 0 <= i < |text|
      ensures text[i] in encode
    {
      assert text[i] in d;
      var j :| 0 <= j < |d| && d[j] == text[i];
    }
  }
}
