/** The texts that name stream sinks and streams. */
module QualifiedIds {
  import opened Basics
  import opened Texts

  // ---- sink types -------------------------------------------------------

  /** A sink type is a number; three of them are defined. */
  type SinkType = int

  const UNDEFINED: SinkType := 0
  const CUSTOM: SinkType := 1
  const LOCAL: SinkType := 2
  const EXTERNAL_PLATFORM: SinkType := 3
  const END_OF_TYPES: SinkType := 4

  function Digits(n: nat): Text {
    (if n < 10 then "" else Digits(n / 10)) + [(n % 10) as char + '0']
  }

  function Decimal(n: int): Text {
    if n < 0 then "-" + Digits(-n) else Digits(n)
  }

  function TypeText(t: SinkType): Text {
    if t == UNDEFINED then "<undefined>"
    else if t == CUSTOM then "custom"
    else if t == LOCAL then "local"
    else if t == EXTERNAL_PLATFORM then "external_platform"
    else "<unknown_" + Decimal(t) + ">"
  }

  /** A text stands for the defined type it prints, up to case and outer spaces. */
  function TypeOf(s: Text): SinkType {
    var name := Trim(Lower(s), ' ');
    if name == TypeText(CUSTOM) then CUSTOM
    else if name == TypeText(LOCAL) then LOCAL
    else if name == TypeText(EXTERNAL_PLATFORM) then EXTERNAL_PLATFORM
    else UNDEFINED
  }

  /** `name` is in lower case; `a` may have any of its letters in upper case. */
  predicate SameLetters(a: Text, name: Text) {
    |a| == |name|
    && forall i :: 0 <= i < |a| ==> a[i] == name[i] || ('A' <= a[i] <= 'Z' && name[i] as int == a[i] as int + 32)
  }

  /** The text is the name in any case, perhaps with spaces around it. */
  ghost predicate Spells(s: Text, name: Text) {
    exists i, j :: SpellsAt(s, name, i, j)
  }

  ghost predicate SpellsAt(s: Text, name: Text, i: int, j: int) {
    0 <= i <= j <= |s| && SameLetters(s[i..j], name) && forall k :: (0 <= k < i || j <= k < |s|) ==> s[k] == ' '
  }

  predicate IsLower(name: Text) {
    forall i :: 0 <= i < |name| ==> !('A' <= name[i] <= 'Z')
  }

  lemma SameLettersLowered(a: Text, name: Text)
    requires IsLower(name)
    ensures SameLetters(a, name) <==> Lower(a) == name
  {
  }

  lemma LowerSpellsAt(s: Text, name: Text, i: nat, j: nat)
    requires IsLower(name) && i <= j <= |s|
    ensures IsCoreAt(Lower(s), name, ' ', i, j) <==> SpellsAt(s, name, i, j)
  {
    assert Lower(s)[i..j] == Lower(s[i..j]);
    SameLettersLowered(s[i..j], name);
    assert forall k :: 0 <= k < |s| ==> (Lower(s)[k] == ' ' <==> s[k] == ' ');
  }

  lemma LowerSpells(s: Text, name: Text)
    requires IsTrimmed(name, ' ') && IsLower(name)
    ensures Trim(Lower(s), ' ') == name <==> Spells(s, name)
  {
    CoreIsTrim(Lower(s), name, ' ');
    if IsCore(Lower(s), name, ' ') {
      var i, j :| IsCoreAt(Lower(s), name, ' ', i, j);
      LowerSpellsAt(s, name, i, j);
    }
    if Spells(s, name) {
      var i, j :| SpellsAt(s, name, i, j);
      LowerSpellsAt(s, name, i, j);
    }
  }

  lemma TypeIsByName(s: Text)
    ensures TypeOf(s) == CUSTOM <==> Spells(s, "custom")
    ensures TypeOf(s) == LOCAL <==> Spells(s, "local")
    ensures TypeOf(s) == EXTERNAL_PLATFORM <==> Spells(s, "external_platform")
    ensures UNDEFINED <= TypeOf(s) < END_OF_TYPES
  {
    LowerSpells(s, "custom");
    LowerSpells(s, "local");
    LowerSpells(s, "external_platform");
  }

  method ParseStreamSinkType(s: Text) returns (t: SinkType)
    ensures t == TypeOf(s)
    ensures UNDEFINED <= t < END_OF_TYPES
    ensures t == CUSTOM <==> Spells(s, "custom")
    ensures t == LOCAL <==> Spells(s, "local")
    ensures t == EXTERNAL_PLATFORM <==> Spells(s, "external_platform")
  {
    TypeIsByName(s);
    var name := Trim(Lower(s), ' ');
    var c := UNDEFINED;
    while c < END_OF_TYPES
      invariant UNDEFINED <= c <= END_OF_TYPES
      invariant forall d :: UNDEFINED <= d < c ==> TypeText(d) != name
      invariant c > UNDEFINED ==> name != TypeText(UNDEFINED)
      invariant c > CUSTOM ==> name != TypeText(CUSTOM)
      invariant c > LOCAL ==> name != TypeText(LOCAL)
      invariant c > EXTERNAL_PLATFORM ==> name != TypeText(EXTERNAL_PLATFORM)
    {
      if TypeText(c) == name {
        return c;
      }
      c := c + 1;
    }
    return UNDEFINED;
  }

  // ---- sink IDs ---------------------------------------------------------

  datatype SinkIDFQ = SinkIDFQ(typ: SinkType, id: Text)

  function SinkText(s: SinkIDFQ): Text {
    TypeText(s.typ) + ":" + s.id
  }

  function ParsedSink(text: Text): SinkIDFQ {
    var parts := SplitOnce(text, ':');
    if |parts| == 2 && TypeOf(parts[0]) != UNDEFINED then SinkIDFQ(TypeOf(parts[0]), parts[1])
    else SinkIDFQ(CUSTOM, text)
  }

  class StreamSinkIDFullyQualified {
    var typ: SinkType
    var id: Text

    constructor (typ: SinkType, id: Text)
      ensures this.typ == typ && this.id == id
    {
      this.typ, this.id := typ, id;
    }

    /** Never fails. */
    method UnmarshalText(text: Text)
      modifies this
      ensures SinkIDFQ(typ, id) == ParsedSink(text)
    {
      var parts := SplitOnce(text, ':');
      if |parts| == 2 {
        typ := ParseStreamSinkType(parts[0]);
        if typ != UNDEFINED {
          id := parts[1];
          return;
        }
      }
      typ := CUSTOM;
      id := text;
    }

    /** Reading the text gives the fields back exactly when the type is a defined one. */
    method MarshalText() returns (text: Text)
      ensures text == SinkText(SinkIDFQ(typ, id))
      ensures ParsedSink(text) == SinkIDFQ(typ, id) <==> Defined(typ)
    {
      text := TypeText(typ) + ":" + id;
      SinkReadsBackIffDefined(SinkIDFQ(typ, id));
    }
  }

  predicate Defined(t: SinkType) {
    t == CUSTOM || t == LOCAL || t == EXTERNAL_PLATFORM
  }

  lemma DefinedTypesReadBack(t: SinkType)
    requires Defined(t)
    ensures TypeOf(TypeText(t)) == t && ':' !in TypeText(t)
  {
    assert Lower(TypeText(t)) == TypeText(t);
    TrimKeepsTrimmed(TypeText(t), ' ');
  }

  lemma {:induction false} DigitsAreDigits(n: nat)
    ensures Digits(n) != "" && forall i :: 0 <= i < |Digits(n)| ==> '0' <= Digits(n)[i] <= '9'
  {
    if n >= 10 {
      DigitsAreDigits(n / 10);
    }
  }

  /** The number a text of digits stands for. */
  function Number(d: Text): int {
    if d == "" then 0 else 10 * Number(d[..|d| - 1]) + (d[|d| - 1] as int - '0' as int)
  }

  /** The digits are those of the number, with no zero in front. */
  lemma {:induction false} DigitsAreTheNumber(n: nat)
    ensures Number(Digits(n)) == n
    ensures n > 0 ==> Digits(n) != "" && Digits(n)[0] != '0'
  {
    if n >= 10 {
      DigitsAreTheNumber(n / 10);
    }
    var d := Digits(n);
    assert d[..|d| - 1] == if n < 10 then "" else Digits(n / 10);
  }

  /** What a type that is not defined prints. */
  lemma OtherTypeTexts(t: SinkType) returns (d: Text)
    requires !Defined(t)
    ensures t == 0 ==> TypeText(t) == "<undefined>"
    ensures t > 0 ==> TypeText(t) == "<unknown_" + d + ">" && Number(d) == t && IsDecimal(d)
    ensures t < 0 ==> TypeText(t) == "<unknown_" + ("-" + d) + ">" && Number(d) == -t && IsDecimal(d)
  {
    var n := if t < 0 then -t else t;
    DigitsAreTheNumber(n);
    DigitsAreDigits(n);
    d := Digits(n);
  }

  predicate IsDecimal(d: Text) {
    d != "" && d[0] != '0' && forall i :: 0 <= i < |d| ==> '0' <= d[i] <= '9'
  }

  lemma OtherTypesAreInBrackets(t: SinkType)
    requires !Defined(t)
    ensures var s := TypeText(t);
            |s| >= 2 && s[0] == '<' && s[|s| - 1] == '>' && ':' !in s
  {
    if t != UNDEFINED {
      DigitsAreDigits(if t < 0 then -t else t);
      var d := Decimal(t);
      assert ':' !in d;
    }
  }

  /** The text of any other type has no separator and stands for no defined type. */
  lemma OtherTypesAreLost(t: SinkType)
    requires !Defined(t)
    ensures TypeOf(TypeText(t)) == UNDEFINED && ':' !in TypeText(t)
  {
    var s := TypeText(t);
    OtherTypesAreInBrackets(t);
    TrimKeepsTrimmed(Lower(s), ' ');
  }

  /** What stands before the first colon is the type if it names one; otherwise the
      whole text is the ID of a custom sink. */
  lemma SinkIsReadFromItsText(name: Text, id: Text)
    requires ':' !in name
    ensures Spells(name, "custom") ==> ParsedSink(name + ":" + id) == SinkIDFQ(CUSTOM, id)
    ensures Spells(name, "local") ==> ParsedSink(name + ":" + id) == SinkIDFQ(LOCAL, id)
    ensures Spells(name, "external_platform") ==> ParsedSink(name + ":" + id) == SinkIDFQ(EXTERNAL_PLATFORM, id)
    ensures !Spells(name, "custom") && !Spells(name, "local") && !Spells(name, "external_platform") ==>
              ParsedSink(name + ":" + id) == SinkIDFQ(CUSTOM, name + ":" + id)
    ensures ParsedSink(name) == SinkIDFQ(CUSTOM, name)
  {
    assert name + ":" + id == name + [':'] + id;
    SplitOnceAtHead(name, id, ':');
    TypeIsByName(name);
  }

  lemma PrintedSinkSplits(s: SinkIDFQ)
    requires ':' !in TypeText(s.typ)
    ensures SplitOnce(SinkText(s), ':') == [TypeText(s.typ), s.id]
  {
    assert SinkText(s) == TypeText(s.typ) + [':'] + s.id;
    SplitOnceAtHead(TypeText(s.typ), s.id, ':');
  }

  /** A printed sink ID is read back, whatever its ID text, exactly when its type is
      one of the three defined ones. */
  lemma SinkReadsBackIffDefined(s: SinkIDFQ)
    ensures ParsedSink(SinkText(s)) == s <==> Defined(s.typ)
  {
    if Defined(s.typ) {
      DefinedTypesReadBack(s.typ);
      PrintedSinkSplits(s);
    } else {
      OtherTypesAreLost(s.typ);
      PrintedSinkSplits(s);
    }
  }

  /** Reading gives a defined type, so printing what was read and reading it again
      changes nothing, for any text. */
  lemma ReadPrintRead(text: Text)
    ensures Defined(ParsedSink(text).typ)
    ensures ParsedSink(SinkText(ParsedSink(text))) == ParsedSink(text)
  {
    SinkReadsBackIffDefined(ParsedSink(text));
  }

  // ---- stream IDs -------------------------------------------------------

  const NO_STREAM := StreamIDFQ("", "", "")

  function StreamText(s: StreamIDFQ): Text {
    s.platform + ":" + s.account + ":" + s.stream
  }

  /** Reading into `into`; the older form in braces may leave fields of it as they were. */
  function ParsedStream(into: StreamIDFQ, text: Text): Option<StreamIDFQ> {
    if '{' in text then
      var parts := Fields(Without(Without(text, '{'), '}'));
      Some(StreamIDFQ(
        if |parts| >= 1 then parts[0] else into.platform,
        if |parts| >= 2 then parts[1] else into.account,
        if |parts| >= 3 then parts[2] else into.stream))
    else
      var parts := Split(text, ':');
      if |parts| < 3 then None else Some(StreamIDFQ(parts[0], parts[1], parts[2]))
  }

  class StreamIDFullyQualified {
    var platformID: Text
    var accountID: Text
    var streamID: Text

    constructor ()
      ensures StreamIDFQ(platformID, accountID, streamID) == NO_STREAM
    {
      platformID, accountID, streamID := "", "", "";
    }

    method UnmarshalText(text: Text) returns (ok: bool)
      modifies this
      ensures var was := old(StreamIDFQ(platformID, accountID, streamID));
              && (ok <==> ParsedStream(was, text).Some?)
              && StreamIDFQ(platformID, accountID, streamID) ==
                 (if ok then ParsedStream(was, text).value else was)
    {
      var s := text;
      if '{' in s {
        s := Without(s, '{');
        s := Without(s, '}');
        var parts := Fields(s);
        if |parts| >= 1 {
          platformID := parts[0];
        }
        if |parts| >= 2 {
          accountID := parts[1];
        }
        if |parts| >= 3 {
          streamID := parts[2];
        }
        return true;
      }
      var parts := Split(s, ':');
      if |parts| < 3 {
        return false;
      }
      platformID, accountID, streamID := parts[0], parts[1], parts[2];
      return true;
    }
  }

  /** No field has a character the text form gives a meaning to. */
  predicate Plain(s: StreamIDFQ) {
    && ':' !in s.platform && ':' !in s.account && ':' !in s.stream
    && '{' !in s.platform && '{' !in s.account && '{' !in s.stream
  }

  lemma {:induction false} FieldsHaveOnly(s: Text, word: Text, c: char)
    requires c !in s && c !in word
    ensures forall i :: 0 <= i < |FieldsFrom(s, word)| ==> c !in FieldsFrom(s, word)[i]
    decreases |s|
  {
    if s != "" {
      if IsSpace(s[0]) {
        FieldsHaveOnly(s[1..], "", c);
      } else {
        FieldsHaveOnly(s[1..], word + [s[0]], c);
      }
    }
  }

  /** Without braces the first three parts between colons are read; fewer are an error. */
  lemma StreamIsReadFromItsParts(into: StreamIDFQ, s: StreamIDFQ, rest: Text)
    requires Plain(s) && '{' !in rest
    ensures ParsedStream(into, s.platform + [':'] + (s.account + [':'] + s.stream)) == Some(s)
    ensures ParsedStream(into, s.platform + [':'] + (s.account + [':'] + (s.stream + [':'] + rest))) == Some(s)
    ensures ParsedStream(into, s.platform + [':'] + s.account) == None
    ensures ParsedStream(into, s.platform) == None
  {
    SplitAtHead(s.platform, s.account + [':'] + (s.stream + [':'] + rest), ':');
    SplitAtHead(s.account, s.stream + [':'] + rest, ':');
    SplitAtHead(s.stream, rest, ':');
    SplitAtHead(s.platform, s.account + [':'] + s.stream, ':');
    SplitAtHead(s.account, s.stream, ':');
    SplitAtHead(s.platform, s.account, ':');
  }

  predicate PlainWord(s: Text) {
    s != "" && NoBlank(s) && '{' !in s && '}' !in s
  }

  lemma Unbraced(s: Text)
    requires '{' !in s && '}' !in s
    ensures Without(Without(['{'] + (s + ['}']), '{'), '}') == s
  {
    WithoutFirst(s + ['}'], '{');
    WithoutAbsent(s + ['}'], '{');
    WithoutLast(s, '}');
  }

  /** The words that stand in braces. */
  lemma BracedWords(into: StreamIDFQ, text: Text)
    requires '{' !in text && '}' !in text
    ensures var parts := FieldsFrom(text, "");
            ParsedStream(into, ['{'] + (text + ['}'])) == Some(StreamIDFQ(
              if |parts| >= 1 then parts[0] else into.platform,
              if |parts| >= 2 then parts[1] else into.account,
              if |parts| >= 3 then parts[2] else into.stream))
  {
    Unbraced(text);
  }

  lemma WordsBetweenBlanks(a: Text, b: Text, c: Text, blank: char)
    requires Blank(blank) && a != "" && b != "" && c != "" && NoBlank(a) && NoBlank(b) && NoBlank(c)
    ensures FieldsFrom(a, "") == [a]
    ensures FieldsFrom(a + [blank] + b, "") == [a, b]
    ensures FieldsFrom(a + [blank] + (b + [blank] + c), "") == [a, b, c]
  {
    FieldsAtHead("", a, blank, b + [blank] + c);
    FieldsAtHead("", a, blank, b);
    FieldsAtHead("", b, blank, c);
    FieldsAtHead("", c, blank, "");
    assert "" + a == a && "" + b == b && "" + c == c;
  }

  /** In braces the words between blanks are the platform, the account and the stream,
      in this order; what is missing stays as it was. */
  lemma StreamIsReadFromItsWords(into: StreamIDFQ, s: StreamIDFQ, blank: char)
    requires Blank(blank) && PlainWord(s.platform) && PlainWord(s.account) && PlainWord(s.stream)
    ensures var all := s.platform + [blank] + (s.account + [blank] + s.stream);
            ParsedStream(into, ['{'] + (all + ['}'])) == Some(s)
    ensures var two := s.platform + [blank] + s.account;
            ParsedStream(into, ['{'] + (two + ['}'])) == Some(s.(stream := into.stream))
    ensures ParsedStream(into, ['{'] + (s.platform + ['}'])) == Some(into.(platform := s.platform))
    ensures ParsedStream(into, ['{'] + ("" + ['}'])) == Some(into)
  {
    WordsBetweenBlanks(s.platform, s.account, s.stream, blank);
    BracedWords(into, s.platform + [blank] + (s.account + [blank] + s.stream));
    BracedWords(into, s.platform + [blank] + s.account);
    BracedWords(into, s.platform);
    BracedWords(into, "");
  }

  /** A printed stream ID is read back exactly when no field has a colon or an opening brace. */
  lemma StreamReadsBackIffPlain(s: StreamIDFQ)
    ensures ParsedStream(NO_STREAM, StreamText(s)) == Some(s) <==> Plain(s)
  {
    var text := StreamText(s);
    if '{' in text {
      var bare := Without(Without(text, '{'), '}');
      assert '{' !in bare;
      FieldsHaveOnly(bare, "", '{');
    } else {
      SplitParts(text, ':');
      assert text == s.platform + [':'] + (s.account + [':'] + s.stream);
      if Plain(s) {
        SplitAtHead(s.platform, s.account + [':'] + s.stream, ':');
        SplitAtHead(s.account, s.stream, ':');
        SplitAtHead(s.stream, "", ':');
      }
    }
  }

  /** A stream ID put into a sink ID for an external platform is recovered exactly
      when it is plain. */
  lemma NestedStreamIsRecoveredIffPlain(s: StreamIDFQ)
    ensures var sink := SinkIDFQ(EXTERNAL_PLATFORM, StreamText(s));
            ParsedStream(NO_STREAM, ParsedSink(SinkText(sink)).id) == Some(s) <==> Plain(s)
  {
    SinkReadsBackIffDefined(SinkIDFQ(EXTERNAL_PLATFORM, StreamText(s)));
    StreamReadsBackIffPlain(s);
  }
}
