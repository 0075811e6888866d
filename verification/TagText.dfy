/** The tags of a stream as a comma-separated text. */
module TagText {
  import opened Basics
  import opened Texts

  const SEPARATOR := ','

  /** The trimmed words of a text that are not empty. */
  function Words(parts: seq<Text>): seq<Text> {
    if parts == [] then []
    else
      var w := Trim(parts[|parts| - 1], ' ');
      Words(parts[..|parts| - 1]) + if w == "" then [] else [w]
  }

  /** The first occurrences, in order. */
  function Firsts(words: seq<Text>): seq<Text> {
    if words == [] then []
    else
      var before, w := Firsts(words[..|words| - 1]), words[|words| - 1];
      if w in before then before else before + [w]
  }

  predicate NoRepeats(q: seq<Text>) {
    forall i, j :: 0 <= i < j < |q| ==> q[i] != q[j]
  }

  /** Distinct words that parsing would not change. */
  predicate AreTags(q: seq<Text>) {
    && NoRepeats(q)
    && forall i :: 0 <= i < |q| ==> q[i] != "" && IsTrimmed(q[i], ' ') && SEPARATOR !in q[i]
  }

  /** The tags are the distinct words in the order they first occur; the tags and the
      duplicates together are all the words. */
  method GetTags(text: Text) returns (tags: seq<Text>, dups: seq<Text>)
    ensures tags == Firsts(Words(Split(text, SEPARATOR)))
    ensures multiset(tags) + multiset(dups) == multiset(Words(Split(text, SEPARATOR)))
    ensures NoRepeats(tags)
    ensures forall w :: w in tags <==> w != "" && exists part :: part in Split(text, ',') && IsCore(part, w, ' ')
  {
    var parts := Split(text, SEPARATOR);
    tags, dups := [], [];
    var isSet: set<Text> := {};
    ghost var words: seq<Text> := [];
    for i := 0 to |parts|
      invariant words == Words(parts[..i])
      invariant forall w :: w in isSet <==> w in tags
      invariant tags == Firsts(words)
      invariant multiset(tags) + multiset(dups) == multiset(words)
    {
      var tag := Trim(parts[i], ' ');
      WordsExtend(parts, i, words);
      if tag == "" {
        continue;
      }
      FirstsExtend(words, tag);
      words := words + [tag];
      tags, dups, isSet := Classify(tags, dups, isSet, tag);
    }
    assert parts[..|parts|] == parts;
    FirstsAreDistinct(words);
    WordsAreCores(parts);
  }

  /** Files a word under the tags or the duplicates. */
  method Classify(tags: seq<Text>, dups: seq<Text>, isSet: set<Text>, tag: Text)
    returns (tags': seq<Text>, dups': seq<Text>, isSet': set<Text>)
    requires forall w :: w in isSet <==> w in tags
    ensures forall w :: w in isSet' <==> w in tags'
    ensures tags' == if tag in tags then tags else tags + [tag]
    ensures multiset(tags') + multiset(dups') == multiset(tags) + multiset(dups) + multiset{tag}
  {
    if tag in isSet {
      return tags, dups + [tag], isSet;
    }
    return tags + [tag], dups, isSet + {tag};
  }

  lemma WordsExtend(parts: seq<Text>, i: nat, words: seq<Text>)
    requires i < |parts| && words == Words(parts[..i])
    ensures var w := Trim(parts[i], ' ');
            Words(parts[..i + 1]) == if w == "" then words else words + [w]
  {
    assert parts[..i + 1][..i] == parts[..i];
  }

  /** One part more gives its text without the outer blanks, and nothing if it is blank. */
  lemma PartYieldsItsCore(parts: seq<Text>, part: Text, w: Text)
    requires IsCore(part, w, ' ')
    ensures Words(parts + [part])
            == Words(parts) + if forall i :: 0 <= i < |part| ==> part[i] == ' ' then [] else [w]
  {
    var all := parts + [part];
    assert all[..|parts|] == parts && all[|parts|] == part;
    CoreIsTrim(part, w, ' ');
    var i, j :| IsCoreAt(part, w, ' ', i, j);
    if w != "" {
      assert part[i] == w[0];
    }
  }

  /** The words are the parts without their outer blanks, but for the blank ones. */
  lemma {:induction false} WordsAreCores(parts: seq<Text>)
    ensures forall w :: w in Words(parts) <==> w != "" && exists part :: part in parts && IsCore(part, w, ' ')
  {
    if parts != [] {
      var n := |parts| - 1;
      WordsAreCores(parts[..n]);
      assert forall part :: part in parts <==> part in parts[..n] || part == parts[n];
      forall w
        ensures w in Words(parts) <==> w != "" && exists part :: part in parts && IsCore(part, w, ' ')
      {
        CoreIsTrim(parts[n], w, ' ');
        if part :| part in parts && IsCore(part, w, ' ') {
          assert part in parts[..n] || part == parts[n];
        }
        assert w in Words(parts) <==> w in Words(parts[..n]) || (w == Trim(parts[n], ' ') && w != "");
      }
    }
  }

  lemma FirstsExtend(words: seq<Text>, w: Text)
    ensures Firsts(words + [w]) == if w in Firsts(words) then Firsts(words) else Firsts(words) + [w]
    ensures multiset(words + [w]) == multiset(words) + multiset{w}
  {
    assert (words + [w])[..|words|] == words;
  }

  lemma {:induction false} FirstsAreDistinct(words: seq<Text>)
    ensures NoRepeats(Firsts(words))
    ensures forall w :: w in Firsts(words) <==> w in words
  {
    if words != [] {
      var n := |words| - 1;
      FirstsAreDistinct(words[..n]);
      assert words == words[..n] + [words[n]];
    }
  }

  /** Where each tag first occurs among the words, the tags before it do too. */
  lemma {:induction false} FirstsKeepOrder(words: seq<Text>, at: nat)
    requires at < |words| && words[at] !in words[..at]
    ensures exists i :: 0 <= i < |Firsts(words)| && Firsts(words)[i] == words[at]
                        && Firsts(words)[..i] == Firsts(words[..at])
  {
    var n := |words| - 1;
    var before := Firsts(words[..n]);
    if at < n {
      assert words[..n][..at] == words[..at];
      FirstsKeepOrder(words[..n], at);
      var i :| 0 <= i < |before| && before[i] == words[at] && before[..i] == Firsts(words[..at]);
      assert Firsts(words)[i] == words[at] && Firsts(words)[..i] == before[..i];
    } else {
      FirstsAreDistinct(words[..n]);
      assert Firsts(words)[|before|] == words[at] && Firsts(words)[..|before|] == before;
    }
  }

  lemma {:induction false} WordsAreTrimmed(parts: seq<Text>)
    requires forall i :: 0 <= i < |parts| ==> SEPARATOR !in parts[i]
    ensures forall i :: 0 <= i < |Words(parts)| ==>
              Words(parts)[i] != "" && IsTrimmed(Words(parts)[i], ' ') && SEPARATOR !in Words(parts)[i]
  {
    if parts != [] {
      var n := |parts| - 1;
      WordsAreTrimmed(parts[..n]);
      TrimTrims(parts[n], ' ');
    }
  }

  /** Whatever the text, the tags read from it are tags. */
  lemma ParsedAreTags(text: Text)
    ensures AreTags(Firsts(Words(Split(text, SEPARATOR))))
  {
    var words := Words(Split(text, SEPARATOR));
    SplitParts(text, SEPARATOR);
    WordsAreTrimmed(Split(text, SEPARATOR));
    FirstsAreDistinct(words);
    forall i | 0 <= i < |Firsts(words)|
      ensures Firsts(words)[i] != "" && IsTrimmed(Firsts(words)[i], ' ') && SEPARATOR !in Firsts(words)[i]
    {
      assert Firsts(words)[i] in words;
    }
  }

  /** The text the deduplicate button writes. */
  function Deduplicated(tags: seq<Text>): Text {
    Join(tags, ", ") + if |tags| > 0 then ", " else ""
  }

  lemma DeduplicatedUnfolds(tags: seq<Text>)
    requires tags != []
    ensures Deduplicated(tags) == tags[0] + [SEPARATOR] + (" " + Deduplicated(tags[1..]))
  {
    if |tags| == 1 {
      assert Deduplicated(tags[1..]) == "";
      assert Deduplicated(tags) == tags[0] + ", ";
    } else {
      assert Deduplicated(tags) == tags[0] + ", " + Join(tags[1..], ", ") + ", ";
    }
  }

  lemma SplitSpaced(s: Text)
    ensures var parts := Split(s, SEPARATOR);
            Split(" " + s, SEPARATOR) == [" " + parts[0]] + parts[1..]
  {
    assert (" " + s)[1..] == s;
  }

  /** The text the button writes splits into the first tag, the others with a space
      before them, and a last space. */
  ghost predicate SplitsInto(parts: seq<Text>, tags: seq<Text>) {
    && |parts| == |tags| + 1
    && parts[|tags|] == (if tags == [] then "" else " ")
    && forall i :: 0 <= i < |tags| ==> parts[i] == if i == 0 then tags[0] else " " + tags[i]
  }

  lemma {:induction false} SplitDeduplicated(tags: seq<Text>)
    requires forall i :: 0 <= i < |tags| ==> SEPARATOR !in tags[i]
    ensures SplitsInto(Split(Deduplicated(tags), SEPARATOR), tags)
  {
    if tags != [] {
      var rest := tags[1..];
      SplitDeduplicated(rest);
      DeduplicatedUnfolds(tags);
      SplitAtHead(tags[0], " " + Deduplicated(rest), SEPARATOR);
      SplitSpaced(Deduplicated(rest));
      SplitsIntoExtends(Split(Deduplicated(rest), SEPARATOR), tags);
    }
  }

  lemma SplitsIntoExtends(parts: seq<Text>, tags: seq<Text>)
    requires tags != [] && SplitsInto(parts, tags[1..])
    ensures SplitsInto([tags[0]] + ([" " + parts[0]] + parts[1..]), tags)
  {
    assert " " + "" == " ";
  }

  lemma {:induction false} WordsOfSpaced(tags: seq<Text>, parts: seq<Text>)
    requires |parts| == |tags|
    requires forall i :: 0 <= i < |tags| ==> tags[i] != "" && IsTrimmed(tags[i], ' ')
    requires forall i :: 0 <= i < |tags| ==> parts[i] == tags[i] || parts[i] == " " + tags[i]
    ensures Words(parts) == tags
  {
    if tags != [] {
      var n := |tags| - 1;
      WordsOfSpaced(tags[..n], parts[..n]);
      TrimKeepsTrimmed(tags[n], ' ');
      assert [' '] + tags[n] == " " + tags[n];
      assert tags == tags[..n] + [tags[n]];
    }
  }

  lemma {:induction false} FirstsOfDistinct(q: seq<Text>)
    requires NoRepeats(q)
    ensures Firsts(q) == q
  {
    if q != [] {
      var n := |q| - 1;
      FirstsOfDistinct(q[..n]);
      assert q == q[..n] + [q[n]];
    }
  }

  /** Parsing the text the button writes for some tags gives their words back. */
  lemma DeduplicatedReadsBack(tags: seq<Text>)
    requires AreTags(tags)
    ensures Words(Split(Deduplicated(tags), SEPARATOR)) == tags
    ensures Firsts(tags) == tags
  {
    FirstsOfDistinct(tags);
    SplitDeduplicated(tags);
    var parts := Split(Deduplicated(tags), SEPARATOR);
    WordsOfSpaced(tags, parts[..|tags|]);
    BlankIsNoWord();
  }

  lemma BlankIsNoWord()
    ensures Trim(" ", ' ') == Trim("", ' ') == ""
  {
    assert " "[1..] == "";
  }

  /** The button's text for any text: the same tags again, and no duplicates. */
  method Deduplicate(text: Text) returns (tags: seq<Text>, tags': seq<Text>, dups': seq<Text>)
    ensures tags == Firsts(Words(Split(text, SEPARATOR)))
    ensures tags' == tags && dups' == []
  {
    var dups;
    tags, dups := GetTags(text);
    ParsedAreTags(text);
    DeduplicatedReadsBack(tags);
    tags', dups' := GetTags(Deduplicated(tags));
    assert |multiset(dups')| == |dups'|;
  }
}
