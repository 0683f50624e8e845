/**
 The source text that the glob, ignore-rule and `_headers` compilers concatenate: each appends
 fragments from one small vocabulary. `ParseEmitted` shows that any such concatenation is a
 well-formed regular expression and that it parses to the sequence of the fragments' meanings.
 */
module Fragments {
  import opened Options
  import opened Regex

  datatype Fragment =
    | Literal(c: char)     // the character, behind a backslash when it is a syntax character
    | OneChar              // [^/]
    | RunOfChars           // [^/]*
    | Placeholder          // [^/]+
    | Anything             // .*
    | WholeSegments        // (?:[^/]+/)*
    | OptionalPath         // (?:.*/)?
    | Boundary             // (?:^|/)
    | OptionalTail         // (?:/.*)?
    | StartAnchor          // ^
    | EndAnchor            // $

  function SourceOf(f: Fragment): string {
    match f
    case Literal(c) => if IsSyntaxCharacter(c) then ['\\', c] else [c]
    case OneChar => "[^/]"
    case RunOfChars => "[^/]*"
    case Placeholder => "[^/]+"
    case Anything => ".*"
    case WholeSegments => "(?:[^/]+/)*"
    case OptionalPath => "(?:.*/)?"
    case Boundary => "(?:^|/)"
    case OptionalTail => "(?:/.*)?"
    case StartAnchor => "^"
    case EndAnchor => "$"
  }

  function MeaningOf(f: Fragment): Rx {
    match f
    case Literal(c) => Char(c)
    case OneChar => NotSlash
    case RunOfChars => Star(NotSlash)
    case Placeholder => Plus(NotSlash)
    case Anything => Star(AnyChar)
    case WholeSegments => Star(Seq(Plus(NotSlash), Seq(Char('/'), Empty)))
    case OptionalPath => Maybe(Seq(Star(AnyChar), Seq(Char('/'), Empty)))
    case Boundary => Or(Seq(Start, Empty), Seq(Char('/'), Empty))
    case OptionalTail => Maybe(Seq(Char('/'), Seq(Star(AnyChar), Empty)))
    case StartAnchor => Start
    case EndAnchor => End
  }

  function Emit(fs: seq<Fragment>): string {
    if fs == [] then "" else SourceOf(fs[0]) + Emit(fs[1..])
  }

  function Denote(fs: seq<Fragment>): Rx {
    if fs == [] then Empty else Seq(MeaningOf(fs[0]), Denote(fs[1..]))
  }

  lemma {:induction false} EmitConcat(a: seq<Fragment>, b: seq<Fragment>)
    ensures Emit(a + b) == Emit(a) + Emit(b)
  {
    if a == [] {
      assert a + b == b;
    } else {
      assert (a + b)[1..] == a[1..] + b;
      EmitConcat(a[1..], b);
    }
  }

  predicate NoQuantifierFirst(rest: string) {
    rest == "" || !IsQuantifier(rest[0])
  }

  lemma PlusSlash(rest: string)
    requires rest != "" && rest[0] == ')'
    ensures ParseDisjunction("[^/]+/" + rest) == Some(Parsed(Seq(Plus(NotSlash), Seq(Char('/'), Empty)), rest))
  {
    var s := "[^/]+/" + rest;
    assert s[4..] == "+/" + rest;
    assert ("+/" + rest)[1..] == "/" + rest;
    assert ("/" + rest)[1..] == rest;
    assert ParseTerm(s) == Some(Parsed(Plus(NotSlash), "/" + rest));
    assert ParseTerm("/" + rest) == Some(Parsed(Char('/'), rest));
    assert ParseAlternative("/" + rest) == Some(Parsed(Seq(Char('/'), Empty), rest));
  }

  lemma AnythingSlash(rest: string)
    requires rest != "" && rest[0] == ')'
    ensures ParseDisjunction(".*/" + rest) == Some(Parsed(Seq(Star(AnyChar), Seq(Char('/'), Empty)), rest))
  {
    var s := ".*/" + rest;
    assert s[1..] == "*/" + rest;
    assert ("*/" + rest)[1..] == "/" + rest;
    assert ("/" + rest)[1..] == rest;
    assert ParseTerm(s) == Some(Parsed(Star(AnyChar), "/" + rest));
    assert ParseTerm("/" + rest) == Some(Parsed(Char('/'), rest));
    assert ParseAlternative("/" + rest) == Some(Parsed(Seq(Char('/'), Empty), rest));
  }

  lemma SlashAnything(rest: string)
    requires rest != "" && rest[0] == ')'
    ensures ParseDisjunction("/.*" + rest) == Some(Parsed(Seq(Char('/'), Seq(Star(AnyChar), Empty)), rest))
  {
    var s := "/.*" + rest;
    assert s[1..] == ".*" + rest;
    assert (".*" + rest)[1..] == "*" + rest;
    assert ("*" + rest)[1..] == rest;
    assert ParseTerm(s) == Some(Parsed(Char('/'), ".*" + rest));
    assert ParseTerm(".*" + rest) == Some(Parsed(Star(AnyChar), rest));
    assert ParseAlternative(".*" + rest) == Some(Parsed(Seq(Star(AnyChar), Empty), rest));
  }

  lemma StartOrSlash(rest: string)
    requires rest != "" && rest[0] == ')'
    ensures ParseDisjunction("^|/" + rest) == Some(Parsed(Or(Seq(Start, Empty), Seq(Char('/'), Empty)), rest))
  {
    var s := "^|/" + rest;
    assert s[1..] == "|/" + rest;
    assert ("|/" + rest)[1..] == "/" + rest;
    assert ("/" + rest)[1..] == rest;
    assert ParseTerm(s) == Some(Parsed(Start, "|/" + rest));
    assert ParseAlternative("|/" + rest) == Some(Parsed(Empty, "|/" + rest));
    assert ParseAlternative(s) == Some(Parsed(Seq(Start, Empty), "|/" + rest));
    assert ParseTerm("/" + rest) == Some(Parsed(Char('/'), rest));
    assert ParseAlternative("/" + rest) == Some(Parsed(Seq(Char('/'), Empty), rest));
    assert ParseDisjunction("/" + rest) == Some(Parsed(Seq(Char('/'), Empty), rest));
  }

  lemma TermOfCharacters(f: Fragment, rest: string)
    requires f.OneChar? || f.RunOfChars? || f.Placeholder? || f.Anything?
    requires NoQuantifierFirst(rest)
    ensures ParseTerm(SourceOf(f) + rest) == Some(Parsed(MeaningOf(f), rest))
  {
    var s := SourceOf(f) + rest;
    if f.Anything? {
      assert s[1..] == "*" + rest;
    } else if f.OneChar? {
      assert s[4..] == rest;
    } else {
      assert s[4..] == (if f.RunOfChars? then "*" else "+") + rest;
    }
    assert ("*" + rest)[1..] == rest && ("+" + rest)[1..] == rest;
  }

  lemma TermOfWholeSegments(rest: string)
    requires NoQuantifierFirst(rest)
    ensures ParseTerm("(?:[^/]+/)*" + rest) == Some(Parsed(MeaningOf(WholeSegments), rest))
  {
    var s := "(?:[^/]+/)*" + rest;
    var close := ")" + ("*" + rest);
    assert s[3..] == "[^/]+/" + close;
    PlusSlash(close);
    assert ("*" + rest)[1..] == rest;
  }

  lemma TermOfOptionalPath(rest: string)
    requires NoQuantifierFirst(rest)
    ensures ParseTerm("(?:.*/)?" + rest) == Some(Parsed(MeaningOf(OptionalPath), rest))
  {
    var s := "(?:.*/)?" + rest;
    var close := ")" + ("?" + rest);
    assert s[3..] == ".*/" + close;
    AnythingSlash(close);
    assert ("?" + rest)[1..] == rest;
  }

  lemma TermOfBoundary(rest: string)
    requires NoQuantifierFirst(rest)
    ensures ParseTerm("(?:^|/)" + rest) == Some(Parsed(MeaningOf(Boundary), rest))
  {
    var s := "(?:^|/)" + rest;
    var close := ")" + (rest);
    assert s[3..] == "^|/" + close;
    StartOrSlash(close);
  }

  lemma TermOfOptionalTail(rest: string)
    requires NoQuantifierFirst(rest)
    ensures ParseTerm("(?:/.*)?" + rest) == Some(Parsed(MeaningOf(OptionalTail), rest))
  {
    var s := "(?:/.*)?" + rest;
    var close := ")" + ("?" + rest);
    assert s[3..] == "/.*" + close;
    SlashAnything(close);
    assert ("?" + rest)[1..] == rest;
  }

  /** Every fragment is one term, whatever follows it (short of another quantifier). */
  lemma TermOfFragment(f: Fragment, rest: string)
    requires NoQuantifierFirst(rest)
    ensures ParseTerm(SourceOf(f) + rest) == Some(Parsed(MeaningOf(f), rest))
  {
    match f
    case Literal(c) => assert (SourceOf(f) + rest)[|SourceOf(f)|..] == rest;
    case WholeSegments => TermOfWholeSegments(rest);
    case OptionalPath => TermOfOptionalPath(rest);
    case Boundary => TermOfBoundary(rest);
    case OptionalTail => TermOfOptionalTail(rest);
    case StartAnchor => assert (SourceOf(f) + rest)[1..] == rest;
    case EndAnchor => assert (SourceOf(f) + rest)[1..] == rest;
    case _ => TermOfCharacters(f, rest);
  }

  lemma {:induction false} AlternativeOfEmitted(fs: seq<Fragment>)
    ensures ParseAlternative(Emit(fs)) == Some(Parsed(Denote(fs), ""))
  {
    if fs != [] {
      AlternativeOfEmitted(fs[1..]);
      TermOfFragment(fs[0], Emit(fs[1..]));
    }
  }

  /** Whatever a compiler emits is well formed and parses to what it meant. */
  lemma ParseEmitted(fs: seq<Fragment>)
    ensures Parse(Emit(fs)) == Some(Denote(fs))
  {
    AlternativeOfEmitted(fs);
  }
}
