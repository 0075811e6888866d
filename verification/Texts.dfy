/** The string functions the parsers use.  A string stands for its bytes, and case is
    that of the ASCII letters. */
module Texts {
  import opened Basics

  /** Splits at every separator. */
  function Split(s: Text, sep: char): (parts: seq<Text>)
    ensures parts != []
  {
    if s == "" then [""]
    else
      var rest := Split(s[1..], sep);
      if s[0] == sep then [""] + rest
      else [[s[0]] + rest[0]] + rest[1..]
  }

  /** Splits at the first separator only, if there is one. */
  function SplitOnce(s: Text, sep: char): (parts: seq<Text>)
    ensures 1 <= |parts| <= 2
  {
    if s == "" then [""]
    else if s[0] == sep then ["", s[1..]]
    else
      var rest := SplitOnce(s[1..], sep);
      [[s[0]] + rest[0]] + rest[1..]
  }

  function TrimLeft(s: Text, c: char): Text {
    if s != "" && s[0] == c then TrimLeft(s[1..], c) else s
  }

  function TrimRight(s: Text, c: char): Text {
    if s != "" && s[|s| - 1] == c then TrimRight(s[..|s| - 1], c) else s
  }

  function Trim(s: Text, c: char): Text {
    TrimRight(TrimLeft(s, c), c)
  }

  function Lower(s: Text): (r: Text)
    ensures |r| == |s|
  {
    seq(|s|, i requires 0 <= i < |s| => if 'A' <= s[i] <= 'Z' then s[i] - 'A' + 'a' else s[i])
  }

  /** Drops every occurrence of the character. */
  function Without(s: Text, c: char): (r: Text)
    ensures c !in r
    ensures forall x :: x in r ==> x in s
  {
    if s == "" then "" else (if s[0] == c then "" else [s[0]]) + Without(s[1..], c)
  }

  predicate IsSpace(c: char) {
    c == ' ' || c == '\t' || c == '\n' || c == '\r' || c as int == 11 || c as int == 12
  }

  /** The runs of characters that are not white space; `word` is the run read so far. */
  function FieldsFrom(s: Text, word: Text): seq<Text> {
    if s == "" then (if word == "" then [] else [word])
    else if IsSpace(s[0]) then (if word == "" then [] else [word]) + FieldsFrom(s[1..], "")
    else FieldsFrom(s[1..], word + [s[0]])
  }

  function Fields(s: Text): seq<Text> {
    FieldsFrom(s, "")
  }

  function Join(parts: seq<Text>, sep: Text): Text {
    if parts == [] then ""
    else if |parts| == 1 then parts[0]
    else parts[0] + sep + Join(parts[1..], sep)
  }

  // ---- laws -------------------------------------------------------------

  lemma {:induction false} SplitAtHead(a: Text, b: Text, sep: char)
    requires sep !in a
    ensures Split(a + [sep] + b, sep) == [a] + Split(b, sep)
    ensures Split(a, sep) == [a]
  {
    if a == "" {
      assert a + [sep] + b == [sep] + b;
    } else {
      SplitAtHead(a[1..], b, sep);
      assert (a + [sep] + b)[1..] == a[1..] + [sep] + b;
      assert a == [a[0]] + a[1..];
    }
  }

  lemma {:induction false} SplitOnceAtHead(a: Text, b: Text, sep: char)
    requires sep !in a
    ensures SplitOnce(a + [sep] + b, sep) == [a, b]
    ensures SplitOnce(a, sep) == [a]
  {
    if a == "" {
      assert a + [sep] + b == [sep] + b;
    } else {
      SplitOnceAtHead(a[1..], b, sep);
      assert (a + [sep] + b)[1..] == a[1..] + [sep] + b;
      assert a == [a[0]] + a[1..];
    }
  }

  /** The parts have no separator, and none is longer than the text. */
  lemma {:induction false} SplitParts(s: Text, sep: char)
    ensures forall i :: 0 <= i < |Split(s, sep)| ==> sep !in Split(s, sep)[i]
  {
    if s != "" {
      SplitParts(s[1..], sep);
    }
  }

  lemma {:induction false} SplitOnceParts(s: Text, sep: char)
    ensures sep !in SplitOnce(s, sep)[0]
    ensures sep in s <==> |SplitOnce(s, sep)| == 2
    ensures sep in s ==> s == SplitOnce(s, sep)[0] + [sep] + SplitOnce(s, sep)[1]
  {
    if s != "" {
      SplitOnceParts(s[1..], sep);
      assert s == [s[0]] + s[1..];
    }
  }

  predicate IsTrimmed(s: Text, c: char) {
    s == "" || (s[0] != c && s[|s| - 1] != c)
  }

  /** `w` is the text without its outer `c`s. */
  ghost predicate IsCore(s: Text, w: Text, c: char) {
    IsTrimmed(w, c) && exists i, j :: IsCoreAt(s, w, c, i, j)
  }

  /** It stands at [i, j), and all around it are `c`s. */
  ghost predicate IsCoreAt(s: Text, w: Text, c: char, i: int, j: int) {
    0 <= i <= j <= |s| && s[i..j] == w && forall k :: (0 <= k < i || j <= k < |s|) ==> s[k] == c
  }

  lemma {:induction false} TrimLeftDropsOnly(s: Text, c: char) returns (i: nat)
    ensures i <= |s| && TrimLeft(s, c) == s[i..]
    ensures forall k :: 0 <= k < i ==> s[k] == c
    ensures i < |s| ==> s[i] != c
  {
    i := 0;
    if s != "" && s[0] == c {
      var j := TrimLeftDropsOnly(s[1..], c);
      i := j + 1;
      assert s[1..][j..] == s[i..];
      assert forall k :: 0 < k < i ==> s[k] == s[1..][k - 1];
    }
  }

  lemma {:induction false} TrimRightDropsOnly(s: Text, c: char) returns (j: nat)
    ensures j <= |s| && TrimRight(s, c) == s[..j]
    ensures forall k :: j <= k < |s| ==> s[k] == c
    ensures j > 0 ==> s[j - 1] != c
  {
    j := |s|;
    if s != "" && s[|s| - 1] == c {
      j := TrimRightDropsOnly(s[..|s| - 1], c);
      assert s[..|s| - 1][..j] == s[..j];
    } else {
      assert s[..j] == s;
    }
  }

  /** Trimming takes away the outer occurrences of the character and nothing else. */
  lemma TrimIsCore(s: Text, c: char)
    ensures IsCore(s, Trim(s, c), c)
  {
    var i := TrimLeftDropsOnly(s, c);
    var n := TrimRightDropsOnly(s[i..], c);
    assert s[i..][..n] == s[i..i + n];
    forall k | 0 <= k < i || i + n <= k < |s|
      ensures s[k] == c
    {
      assert k >= i ==> s[k] == s[i..][k - i];
    }
    assert IsCoreAt(s, Trim(s, c), c, i, i + n);
  }

  /** There is only one such part. */
  lemma CoreIsUnique(s: Text, v: Text, w: Text, c: char)
    requires IsCore(s, v, c) && IsCore(s, w, c)
    ensures v == w
  {
    var i, j :| IsCoreAt(s, v, c, i, j);
    var m, n :| IsCoreAt(s, w, c, m, n);
    if v != "" {
      assert s[i] == v[0] && s[j - 1] == v[|v| - 1];
    }
    if w != "" {
      assert s[m] == w[0] && s[n - 1] == w[|w| - 1];
    }
  }

  lemma CoreIsTrim(s: Text, w: Text, c: char)
    ensures IsCore(s, w, c) <==> w == Trim(s, c)
  {
    TrimIsCore(s, c);
    if IsCore(s, w, c) {
      CoreIsUnique(s, w, Trim(s, c), c);
    }
  }

  /** Trimming gives a trimmed text of characters of the text. */
  lemma TrimTrims(s: Text, c: char)
    ensures IsTrimmed(Trim(s, c), c)
    ensures forall x :: x in Trim(s, c) ==> x in s
  {
    TrimIsCore(s, c);
    var i, j :| IsCoreAt(s, Trim(s, c), c, i, j);
    assert forall x :: x in s[i..j] ==> x in s;
  }

  lemma TrimKeepsTrimmed(s: Text, c: char)
    requires IsTrimmed(s, c)
    ensures Trim(s, c) == s
    ensures Trim([c] + s, c) == s
  {
    assert ([c] + s)[1..] == s;
  }

  lemma WithoutFirst(s: Text, c: char)
    ensures Without([c] + s, c) == Without(s, c)
  {
    assert ([c] + s)[1..] == s;
  }

  lemma {:induction false} WithoutLast(s: Text, c: char)
    requires c !in s
    ensures Without(s + [c], c) == s
  {
    if s == "" {
      assert s + [c] == [c] + "";
      WithoutFirst("", c);
    } else {
      WithoutLast(s[1..], c);
      var t := s + [c];
      assert t[1..] == s[1..] + [c] && t[0] == s[0];
    }
  }

  lemma {:induction false} WithoutAbsent(a: Text, c: char)
    requires c !in a
    ensures Without(a, c) == a
  {
    if a != "" {
      WithoutAbsent(a[1..], c);
    }
  }

  /** The white space of ASCII. */
  predicate Blank(c: char) {
    c as int in {9, 10, 11, 12, 13, 32}
  }

  predicate NoBlank(s: Text) {
    forall i :: 0 <= i < |s| ==> !Blank(s[i])
  }

  lemma {:induction false} FieldsAtHead(word: Text, a: Text, blank: char, rest: Text)
    requires word + a != "" && NoBlank(a) && Blank(blank)
    ensures FieldsFrom(a + [blank] + rest, word) == [word + a] + FieldsFrom(rest, "")
    ensures FieldsFrom(a, word) == [word + a]
    decreases |a|
  {
    if a == "" {
      assert a + [blank] + rest == [blank] + rest && word + a == word;
      assert ([blank] + rest)[1..] == rest;
    } else {
      assert (a + [blank] + rest)[1..] == a[1..] + [blank] + rest;
      assert word + a == (word + [a[0]]) + a[1..];
      FieldsAtHead(word + [a[0]], a[1..], blank, rest);
    }
  }
}
