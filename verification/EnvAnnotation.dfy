/** The `#[env(simnet)]` annotation: recognising it in a comment, and the test that lets most sources skip
    parsing altogether. */
module EnvAnnotation {
  import opened Common

  predicate IsWhitespace(c: char) {
    || '\U{9}' <= c <= '\U{d}' || c == ' ' || c == '\U{85}' || c == '\U{a0}' || c == '\U{1680}'
    || '\U{2000}' <= c <= '\U{200a}' || c == '\U{2028}' || c == '\U{2029}' || c == '\U{202f}'
    || c == '\U{205f}' || c == '\U{3000}'
  }

  ghost predicate Blank(s: string) {
    forall i :: 0 <= i < |s| ==> IsWhitespace(s[i])
  }

  function TrimStart(s: string): string {
    if s != [] && IsWhitespace(s[0]) then TrimStart(s[1..]) else s
  }

  function TrimEnd(s: string): string {
    if s != [] && IsWhitespace(s[|s| - 1]) then TrimEnd(s[..|s| - 1]) else s
  }

  function Trim(s: string): string {
    TrimEnd(TrimStart(s))
  }

  lemma {:induction false} TrimStartCuts(s: string) returns (blank: string)
    ensures s == blank + TrimStart(s) && Blank(blank)
  {
    if s != [] && IsWhitespace(s[0]) {
      var later := TrimStartCuts(s[1..]);
      blank := [s[0]] + later;
      Assoc([s[0]], later, TrimStart(s));
      assert s == [s[0]] + s[1..];
    } else {
      blank := [];
    }
  }

  lemma {:induction false} TrimEndCuts(s: string) returns (blank: string)
    ensures s == TrimEnd(s) + blank && Blank(blank)
  {
    if s != [] && IsWhitespace(s[|s| - 1]) {
      var earlier := TrimEndCuts(s[..|s| - 1]);
      blank := earlier + [s[|s| - 1]];
      assert s == s[..|s| - 1] + [s[|s| - 1]];
    } else {
      blank := [];
    }
  }

  /** Everything cut off by trimming is whitespace. */
  lemma TrimCuts(s: string) returns (before: string, after: string)
    ensures s == before + Trim(s) + after && Blank(before) && Blank(after)
  {
    before := TrimStartCuts(s);
    after := TrimEndCuts(TrimStart(s));
  }

  /** Leading whitespace does not matter to trimming. */
  lemma {:induction false} WhitespaceBefore(blank: string, s: string)
    requires Blank(blank)
    ensures Trim(blank + s) == Trim(s)
  {
    if blank != [] {
      assert (blank + s)[1..] == blank[1..] + s;
      assert (blank + s)[0] == blank[0];
      WhitespaceBefore(blank[1..], s);
    } else {
      assert blank + s == s;
    }
  }

  lemma {:induction false} WhitespaceAfter(s: string, blank: string)
    requires Blank(blank)
    ensures Trim(s + blank) == Trim(s)
  {
    if s == [] {
      WhitespaceBefore(blank, []);
      assert [] + blank == blank + [];
    } else if IsWhitespace(s[0]) {
      assert (s + blank)[1..] == s[1..] + blank;
      WhitespaceAfter(s[1..], blank);
    } else {
      WhitespaceAtEnd(s, blank);
    }
  }

  lemma {:induction false} WhitespaceAtEnd(s: string, blank: string)
    requires Blank(blank)
    ensures TrimEnd(s + blank) == TrimEnd(s)
  {
    if blank == [] {
      AppendNothing(s);
    } else {
      InitOfConcat(s, blank);
      WhitespaceAtEnd(s, blank[..|blank| - 1]);
    }
  }

  /** Whitespace on both sides does not matter to trimming. */
  lemma WhitespaceAround(before: string, s: string, after: string)
    requires Blank(before) && Blank(after)
    ensures Trim(before + s + after) == Trim(s)
  {
    WhitespaceAfter(before + s, after);
    WhitespaceBefore(before, s);
  }

  function Find(s: string, c: char): (r: Option<nat>)
    ensures r.Some? ==> r.value < |s| && s[r.value] == c && c !in s[..r.value]
    ensures r.None? ==> c !in s
  {
    if s == [] then None
    else if s[0] == c then Some(0)
    else
      var later := Find(s[1..], c);
      if later.Some? then
        assert s[..later.value + 1] == [s[0]] + s[1..][..later.value];
        Some(later.value + 1)
      else None
  }

  // ---------------------------------------------------------------- the annotation

  datatype Environment = OnChain | Simnet

  function StripPrefix(s: string, prefix: string): Option<string> {
    if prefix <= s then Some(s[|prefix|..]) else None
  }

  function StripSuffix(s: string, c: char): Option<string> {
    if s != [] && s[|s| - 1] == c then Some(s[..|s| - 1]) else None
  }

  function ParseEnvironment(s: string): Option<Environment> {
    if s == "onchain" then Some(OnChain) else if s == "simnet" then Some(Simnet) else None
  }

  /** Whether a comment's text is an annotation naming an environment; only simnet may be named. */
  predicate IsEnvAnnotation(comment: string) {
    var unprefixed := StripPrefix(Trim(comment), "#[");
    unprefixed.Some? &&
    var unwrapped := StripSuffix(unprefixed.value, ']');
    unwrapped.Some? &&
    var s := Trim(unwrapped.value);
    var open := Find(s, '(');
    open.Some? && Trim(s[..open.value]) == "env" &&
    var value := StripSuffix(s[open.value + 1..], ')');
    value.Some? && ParseEnvironment(Trim(value.value)) == Some(Simnet)
  }

  ghost predicate Blanks(b: seq<string>) {
    |b| == 7 && forall i :: 0 <= i < 7 ==> Blank(b[i])
  }

  /** `#[env(value)]`, with room for whitespace wherever the parser takes it. */
  function AnnotationText(b: seq<string>, value: string): string
    requires |b| == 7
  {
    b[0] + ("#[" + (b[1] + CallText(b[2], b[3] + value + b[4]) + b[5]) + "]") + b[6]
  }

  function CallText(blank: string, argument: string): string {
    "env" + blank + ("(" + (argument + ")"))
  }

  lemma CallIsRead(blank: string, argument: string)
    requires Blank(blank)
    ensures var s := CallText(blank, argument);
            && Find(s, '(') == Some(3 + |blank|) && Trim(s[..3 + |blank|]) == "env"
            && s[3 + |blank| + 1..] == argument + ")" && Trim(s) == s
  {
    var s, name := CallText(blank, argument), "env" + blank;
    assert '(' !in name;
    assert s == name + ("(" + (argument + ")"));
    FindInBoth(name, "(" + (argument + ")"), '(');
    assert Find("(" + (argument + ")"), '(') == Some(0);
    assert s[..|name|] == name;
    WhitespaceAfter("env", blank);
    assert s[0] == 'e' && s[|s| - 1] == ')';
  }

  lemma Wrapped(inner: string)
    ensures var text := "#[" + inner + "]";
            && Trim(text) == text && StripPrefix(text, "#[") == Some(inner + "]")
            && StripSuffix(inner + "]", ']') == Some(inner)
  {
    var text := "#[" + inner + "]";
    assert text[0] == '#' && text[|text| - 1] == ']';
    assert text[..2] == "#[" && text[2..] == inner + "]";
    assert (inner + "]")[..|inner|] == inner;
  }

  /** Of the texts of this form exactly those that say `simnet` are annotations; `onchain` may not be said. */
  lemma AnnotationSaysSimnet(b: seq<string>, value: string)
    requires Blanks(b) && Trim(value) == value
    ensures IsEnvAnnotation(AnnotationText(b, value)) <==> value == "simnet"
  {
    var inner := b[1] + CallText(b[2], b[3] + value + b[4]) + b[5];
    WhitespaceAround(b[0], "#[" + inner + "]", b[6]);
    Wrapped(inner);
    InnerIsRead(b, value);
  }

  lemma InnerIsRead(b: seq<string>, value: string)
    requires Blanks(b) && Trim(value) == value
    ensures var s := Trim(b[1] + CallText(b[2], b[3] + value + b[4]) + b[5]);
            && NamesEnv(s)
            && var argument := StripSuffix(s[Find(s, '(').value + 1..], ')');
               argument.Some? && Trim(argument.value) == value
  {
    var argument := b[3] + value + b[4];
    CallIsRead(b[2], argument);
    WhitespaceAround(b[1], CallText(b[2], argument), b[5]);
    assert (argument + ")")[..|argument|] == argument;
    WhitespaceAround(b[3], value, b[4]);
  }

  lemma AnnotationHasForm(comment: string) returns (b: seq<string>)
    requires IsEnvAnnotation(comment)
    ensures Blanks(b) && comment == AnnotationText(b, "simnet")
  {
    var b0, b6 := TrimCuts(comment);
    var inner := Unwrapped(Trim(comment));
    var b1, b2, b3, b4, b5 := InnerHasForm(inner);
    b := [b0, b1, b2, b3, b4, b5, b6];
  }

  lemma InnerHasForm(inner: string) returns (b1: string, b2: string, b3: string, b4: string, b5: string)
    requires NamesEnv(Trim(inner))
    requires var s := Trim(inner);
             var value := StripSuffix(s[Find(s, '(').value + 1..], ')');
             value.Some? && Trim(value.value) == "simnet"
    ensures Blank(b1) && Blank(b2) && Blank(b3) && Blank(b4) && Blank(b5)
    ensures inner == b1 + CallText(b2, b3 + "simnet" + b4) + b5
  {
    b1, b5 := TrimCuts(inner);
    TrimmedStart(inner);
    b2, b3, b4 := CallHasForm(Trim(inner));
  }

  lemma CallHasForm(s: string) returns (b2: string, b3: string, b4: string)
    requires Find(s, '(').Some? && Trim(s[..Find(s, '(').value]) == "env"
    requires var value := StripSuffix(s[Find(s, '(').value + 1..], ')');
             value.Some? && Trim(value.value) == "simnet" && !IsWhitespace(s[0])
    ensures Blank(b2) && Blank(b3) && Blank(b4) && s == CallText(b2, b3 + "simnet" + b4)
  {
    var open := Find(s, '(').value;
    var name, rest := s[..open], s[open + 1..];
    var blank;
    blank, b2 := TrimCuts(name);
    b3, b4 := TrimCuts(rest[..|rest| - 1]);
    assert s == name + ("(" + (rest[..|rest| - 1] + ")"));
    assert name[0] == s[0];
    NothingInFront(blank, "env" + b2);
    assert name == blank + ("env" + b2);
  }

  lemma NothingInFront(blank: string, s: string)
    requires Blank(blank) && s != []
    ensures IsWhitespace((blank + s)[0]) || blank + s == s
  {
    if blank == [] {
      AppendNothing(s);
    }
  }

  /** What has been trimmed starts with something else than whitespace. */
  lemma TrimmedStart(s: string)
    requires Trim(s) != []
    ensures !IsWhitespace(Trim(s)[0])
  {
    TrimStartStart(s);
    var _ := TrimEndCuts(TrimStart(s));
  }

  lemma {:induction false} TrimStartStart(s: string)
    ensures TrimStart(s) == [] || !IsWhitespace(TrimStart(s)[0])
  {
    if s != [] && IsWhitespace(s[0]) {
      TrimStartStart(s[1..]);
    }
  }

  /** The brackets round an annotation. */
  lemma Unwrapped(trimmed: string) returns (inner: string)
    requires StripPrefix(trimmed, "#[").Some?
    requires StripSuffix(StripPrefix(trimmed, "#[").value, ']').Some?
    ensures trimmed == "#[" + inner + "]"
    ensures inner == StripSuffix(StripPrefix(trimmed, "#[").value, ']').value
  {
    inner := trimmed[2..|trimmed| - 1];
    assert inner == trimmed[2..][..|trimmed[2..]| - 1];
    assert trimmed[..2] == "#[";
  }

  /** A comment is an annotation exactly when it has this form and says `simnet`. */
  lemma AnnotationIff(comment: string)
    ensures IsEnvAnnotation(comment) <==> exists b :: Blanks(b) && comment == AnnotationText(b, "simnet")
  {
    if IsEnvAnnotation(comment) {
      var b := AnnotationHasForm(comment);
    }
    if b :| Blanks(b) && comment == AnnotationText(b, "simnet") {
      AnnotationSaysSimnet(b, "simnet");
    }
  }

  // ---------------------------------------------------------------- the test without parsing

  predicate MarkAt(s: string, i: int) {
    0 <= i && i + 2 <= |s| && s[i] == '#' && s[i + 1] == '['
  }

  function FindMark(s: string): (r: Option<nat>)
    ensures r.Some? ==> MarkAt(s, r.value) && forall i :: 0 <= i < r.value ==> !MarkAt(s, i)
    ensures r.None? ==> forall i :: 0 <= i < |s| ==> !MarkAt(s, i)
  {
    if |s| < 2 then None
    else if MarkAt(s, 0) then Some(0)
    else
      var later := FindMark(s[1..]);
      assert forall i :: 0 < i < |s| ==> MarkAt(s, i) == MarkAt(s[1..], i - 1);
      if later.Some? then Some(later.value + 1) else None
  }

  /** `split("#[")` */
  function Split(s: string): (pieces: seq<string>)
    ensures |pieces| > 0
  {
    var mark := FindMark(s);
    if mark.None? then [s] else [s[..mark.value]] + Split(s[mark.value + 2..])
  }

  /** The piece after a mark trims to `env` before its first parenthesis. */
  predicate NamesEnv(piece: string) {
    var open := Find(piece, '(');
    open.Some? && Trim(piece[..open.value]) == "env"
  }

  predicate MightCarryEnvAnnotation(source: string) {
    exists k :: 1 <= k < |Split(source)| && NamesEnv(Split(source)[k])
  }

  lemma NameHasNoMark(s: string)
    requires Trim(s) == "env"
    ensures '#' !in s
  {
    var before, after := TrimCuts(s);
    assert '#' !in before && '#' !in "env" && '#' !in after;
  }

  lemma {:induction false} FindInBoth(s: string, t: string, c: char)
    ensures Find(s + t, c) ==
            if Find(s, c).Some? then Find(s, c)
            else if Find(t, c).Some? then Some(|s| + Find(t, c).value) else None
  {
    if s == [] {
      assert s + t == t;
    } else {
      assert (s + t)[1..] == s[1..] + t;
      FindInBoth(s[1..], t, c);
    }
  }

  /** A text that names `env` before a parenthesis does so whatever follows. */
  lemma NamesEnvExtends(s: string, t: string)
    ensures NamesEnv(s) ==> NamesEnv(s + t)
    ensures Find(s, '(').Some? ==> NamesEnv(s + t) == NamesEnv(s)
  {
    FindInBoth(s, t, '(');
    if Find(s, '(').Some? {
      assert (s + t)[..Find(s, '(').value] == s[..Find(s, '(').value];
    }
  }

  /** Up to the next mark or up to the end of the source: it makes no difference where the name is looked for. */
  lemma PieceIsEnough(rest: string)
    ensures NamesEnv(Split(rest)[0]) == NamesEnv(rest)
  {
    var mark := FindMark(rest);
    if mark.Some? {
      var piece, more := rest[..mark.value], rest[mark.value..];
      assert rest == piece + more;
      NamesEnvExtends(piece, more);
      FindInBoth(piece, more, '(');
      if Find(piece, '(').None? && Find(rest, '(').Some? {
        var name := rest[..Find(rest, '(').value];
        assert more[0] == '#';
        assert name[|piece|] == '#';
        if Trim(name) == "env" {
          NameHasNoMark(name);
        }
      }
    }
  }

  /** A mark in the source, whatever follows naming `env` before the first parenthesis. */
  ghost predicate Announces(s: string, i: int) {
    MarkAt(s, i) && NamesEnv(s[i + 2..])
  }

  ghost predicate Announced(s: string) {
    exists i :: Announces(s, i)
  }

  lemma MightCarryAfter(s: string, m: nat)
    requires FindMark(s) == Some(m)
    ensures MightCarryEnvAnnotation(s) <==> NamesEnv(s[m + 2..]) || MightCarryEnvAnnotation(s[m + 2..])
  {
    PiecesAfter(s);
    PieceIsEnough(s[m + 2..]);
  }

  /** The test accepts a source exactly when, after some mark in it, the text up to the first parenthesis trims
      to `env`. */
  lemma {:induction false} MightCarryIff(source: string)
    ensures MightCarryEnvAnnotation(source) <==> Announced(source)
    decreases |source|
  {
    var mark := FindMark(source);
    if mark.Some? {
      MightCarryIff(source[mark.value + 2..]);
      MightCarryAfter(source, mark.value);
      AnnouncedAfter(source, mark.value);
    } else {
      NothingWithoutMark(source);
    }
  }

  lemma NothingWithoutMark(source: string)
    requires FindMark(source).None?
    ensures !MightCarryEnvAnnotation(source) && !Announced(source)
  {
    assert Split(source) == [source];
  }

  /** A mark before which there is none is the first to announce, or one after it is. */
  lemma AnnouncedAfter(source: string, m: nat)
    requires FindMark(source) == Some(m)
    ensures var rest := source[m + 2..];
            Announced(source) <==> NamesEnv(rest) || Announced(rest)
  {
    if i :| Announces(source, i) {
      FirstOrLater(source, m, i);
    }
    if Announced(source[m + 2..]) {
      var i :| Announces(source[m + 2..], i);
      AnnouncedLater(source, m, i);
    }
    assert NamesEnv(source[m + 2..]) ==> Announces(source, m);
  }

  lemma FirstOrLater(source: string, m: nat, i: nat)
    requires FindMark(source) == Some(m) && Announces(source, i)
    ensures NamesEnv(source[m + 2..]) || Announced(source[m + 2..])
  {
    if i != m {
      assert i >= m + 2;
      AnnouncedLater(source, m, i - m - 2);
    }
  }

  lemma AnnouncedLater(source: string, m: nat, i: nat)
    requires m + 2 <= |source|
    ensures Announces(source[m + 2..], i) <==> Announces(source, i + m + 2)
  {
    var rest := source[m + 2..];
    if i + 2 <= |rest| {
      assert rest[i + 2..] == source[i + m + 4..];
    }
  }

  lemma PiecesAfter(s: string)
    requires FindMark(s).Some?
    ensures var rest := s[FindMark(s).value + 2..];
            MightCarryEnvAnnotation(s) <==> NamesEnv(Split(rest)[0]) || MightCarryEnvAnnotation(rest)
  {
    var rest := s[FindMark(s).value + 2..];
    var pieces, later := Split(s), Split(rest);
    assert |pieces| == |later| + 1 && forall k :: 1 <= k < |pieces| ==> pieces[k] == later[k - 1];
    if NamesEnv(later[0]) {
      assert NamesEnv(pieces[1]);
    }
    if k :| 1 <= k < |later| && NamesEnv(later[k]) {
      assert NamesEnv(pieces[k + 1]);
    }
  }

  /** An annotation announces itself: its text holds a mark, after which it names `env` before a parenthesis. */
  lemma AnnotationIsAnnounced(comment: string) returns (i: nat)
    requires IsEnvAnnotation(comment)
    ensures Announces(comment, i)
  {
    var before, after := TrimCuts(comment);
    var inner := Unwrapped(Trim(comment));
    i := |before|;
    assert comment[i + 2..] == inner + ("]" + after);
    InnerNamesEnv(inner);
    NamesEnvExtends(inner, "]" + after);
  }

  lemma InnerNamesEnv(inner: string)
    requires NamesEnv(Trim(inner))
    ensures NamesEnv(inner)
  {
    var before, after := TrimCuts(inner);
    var s := Trim(inner);
    var open := Find(s, '(').value;
    NamesEnvExtends(s, after);
    FindInBoth(s, after, '(');
    FindInBoth(before, s + after, '(');
    assert '(' !in before;
    assert inner == before + (s + after);
    assert inner[..|before| + open] == before + s[..open];
    WhitespaceBefore(before, s[..open]);
  }

  /** A source in which some comment is an `env` annotation is never skipped, wherever the comment is. */
  lemma AnnotatedSourceIsNotSkipped(before: string, comment: string, after: string)
    requires IsEnvAnnotation(comment)
    ensures MightCarryEnvAnnotation(before + comment + after)
  {
    var i := AnnotationIsAnnounced(comment);
    var source := before + comment + after;
    NamesEnvExtends(comment[i + 2..], after);
    assert source[|before| + i + 2..] == comment[i + 2..] + after;
    assert Announces(source, |before| + i);
    MightCarryIff(source);
  }

  /** The 25 characters that Unicode calls white space. */
  lemma WhitespaceIs(c: char)
    ensures IsWhitespace(c) <==>
            c in {'\t', '\n', '\U{b}', '\U{c}', '\r', ' ', '\U{85}', '\U{a0}', '\U{1680}', '\U{2000}', '\U{2001}',
                  '\U{2002}', '\U{2003}', '\U{2004}', '\U{2005}', '\U{2006}', '\U{2007}', '\U{2008}', '\U{2009}',
                  '\U{200a}', '\U{2028}', '\U{2029}', '\U{202f}', '\U{205f}', '\U{3000}'}
  {
  }
}
