/**
 The part of JavaScript's regular expressions that the compilers emit: a syntax tree, what it
 matches, and a parser for regular-expression source text (the `RegExp` constructor, no flags).
 */
module Regex {
  import opened Options
  import opened Text

  datatype Rx =
    | Empty
    | Char(c: char)
    | AnyChar              // .
    | NotSlash             // [^/]
    | Start                // ^
    | End                  // $
    | Seq(first: Rx, second: Rx)
    | Or(left: Rx, right: Rx)
    | Star(body: Rx)
    | Plus(body: Rx)
    | Maybe(body: Rx)

  /** `r` matches the characters `i..j` of `s`; the anchors look at the whole of `s`. */
  predicate Matches(r: Rx, s: string, i: nat, j: nat)
    requires i <= j <= |s|
    decreases r, j - i
  {
    match r
    case Empty => i == j
    case Char(c) => j == i + 1 && s[i] == c
    case AnyChar => j == i + 1 && !IsLineTerminator(s[i])
    case NotSlash => j == i + 1 && s[i] != '/'
    case Start => i == j == 0
    case End => i == j == |s|
    case Seq(a, b) => exists k: nat :: i <= k <= j && Matches(a, s, i, k) && Matches(b, s, k, j)
    case Or(a, b) => Matches(a, s, i, j) || Matches(b, s, i, j)
    case Star(a) => Repeats(a, s, i, j)
    case Plus(a) => exists k: nat :: i <= k <= j && Matches(a, s, i, k) && Repeats(a, s, k, j)
    case Maybe(a) => i == j || Matches(a, s, i, j)
  }

  /** Zero or more iterations of `a`, none of them empty. */
  predicate Repeats(a: Rx, s: string, i: nat, j: nat)
    requires i <= j <= |s|
    decreases a, j - i + 1
  {
    i == j || exists k: nat :: i < k <= j && Matches(a, s, i, k) && Repeats(a, s, k, j)
  }

  lemma SplitSeq(a: Rx, b: Rx, s: string, i: nat, j: nat) returns (k: nat)
    requires i <= j <= |s| && Matches(Seq(a, b), s, i, j)
    ensures i <= k <= j && Matches(a, s, i, k) && Matches(b, s, k, j)
  {
    k :| i <= k <= j && Matches(a, s, i, k) && Matches(b, s, k, j);
  }

  lemma SplitRepeats(a: Rx, s: string, i: nat, j: nat) returns (k: nat)
    requires i < j <= |s| && Repeats(a, s, i, j)
    ensures i < k <= j && Matches(a, s, i, k) && Repeats(a, s, k, j)
  {
    k :| i < k <= j && Matches(a, s, i, k) && Repeats(a, s, k, j);
  }

  lemma JoinSeq(a: Rx, b: Rx, s: string, i: nat, k: nat, j: nat)
    requires i <= k <= j <= |s| && Matches(a, s, i, k) && Matches(b, s, k, j)
    ensures Matches(Seq(a, b), s, i, j)
  {
  }

  /** `regex.test(s)`: some stretch of `s` matches. */
  predicate Test(r: Rx, s: string) {
    exists i: nat, j: nat :: i <= |s| && i <= j <= |s| && Matches(r, s, i, j)
  }

  predicate MatchesAny(regexes: seq<Rx>, path: string) {
    exists k :: 0 <= k < |regexes| && Test(regexes[k], path)
  }

  predicate IsSyntaxCharacter(c: char) {
    || c == '^' || c == '$' || c == '\\' || c == '.' || c == '*' || c == '+' || c == '?' || c == '('
    || c == ')' || c == '[' || c == ']' || c == '{' || c == '}' || c == '|'
  }

  predicate IsQuantifier(c: char) {
    c == '*' || c == '+' || c == '?'
  }

  /** What remains to be parsed, and the tree of what was. */
  datatype Parsed = Parsed(rx: Rx, rest: string)

  function Quantified(atom: Rx, s: string): (p: Parsed)
    ensures |p.rest| <= |s|
  {
    if s == "" || !IsQuantifier(s[0]) then Parsed(atom, s)
    else
      var rx := if s[0] == '*' then Star(atom) else if s[0] == '+' then Plus(atom) else Maybe(atom);
      // A lazy quantifier accepts the same strings.
      Parsed(rx, if |s| > 1 && s[1] == '?' then s[2..] else s[1..])
  }

  function ParseAtom(s: string): (p: Option<Parsed>)
    requires s != ""
    ensures p.Some? ==> |p.value.rest| < |s|
    decreases |s|, 0
  {
    if s[0] == '.' then Some(Parsed(AnyChar, s[1..]))
    else if s[0] == '\\' then
      if |s| > 1 && (IsSyntaxCharacter(s[1]) || s[1] == '/') then Some(Parsed(Char(s[1]), s[2..])) else None
    else if s[0] == '[' then
      if |s| >= 4 && s[1] == '^' && s[2] == '/' && s[3] == ']' then Some(Parsed(NotSlash, s[4..])) else None
    else if s[0] == '(' then
      if |s| >= 3 && s[1] == '?' && s[2] == ':' then
        match ParseDisjunction(s[3..])
        case None => None
        case Some(inner) =>
          if inner.rest != "" && inner.rest[0] == ')' then Some(Parsed(inner.rx, inner.rest[1..])) else None
      else None
    else if IsSyntaxCharacter(s[0]) then None
    else Some(Parsed(Char(s[0]), s[1..]))
  }

  function ParseTerm(s: string): (p: Option<Parsed>)
    requires s != ""
    ensures p.Some? ==> |p.value.rest| < |s|
    decreases |s|, 1
  {
    if s[0] == '^' then Some(Parsed(Start, s[1..]))
    else if s[0] == '$' then Some(Parsed(End, s[1..]))
    else
      match ParseAtom(s)
      case None => None
      case Some(atom) => Some(Quantified(atom.rx, atom.rest))
  }

  function ParseAlternative(s: string): (p: Option<Parsed>)
    ensures p.Some? ==> |p.value.rest| <= |s|
    decreases |s|, 2
  {
    if s == "" || s[0] == '|' || s[0] == ')' then Some(Parsed(Empty, s))
    else
      match ParseTerm(s)
      case None => None
      case Some(term) =>
        match ParseAlternative(term.rest)
        case None => None
        case Some(more) => Some(Parsed(Seq(term.rx, more.rx), more.rest))
  }

  function ParseDisjunction(s: string): (p: Option<Parsed>)
    ensures p.Some? ==> |p.value.rest| <= |s|
    decreases |s|, 3
  {
    match ParseAlternative(s)
    case None => None
    case Some(left) =>
      if left.rest != "" && left.rest[0] == '|' then
        match ParseDisjunction(left.rest[1..])
        case None => None
        case Some(right) => Some(Parsed(Or(left.rx, right.rx), right.rest))
      else Some(left)
  }

  /** `new RegExp(source)`; `None` where it throws (or leaves the subset modelled here). */
  function Parse(source: string): Option<Rx> {
    match ParseDisjunction(source)
    case None => None
    case Some(p) => if p.rest == "" then Some(p.rx) else None
  }
}
