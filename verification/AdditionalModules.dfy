/**
 Module references of packages/cloudflare-rolldown-plugin/src/plugins/additional-modules.ts: the
 markers written at resolve time, and the rewrite of a rendered chunk that replaces them.
 */
module AdditionalModules {
  import opened Options
  import opened Text

  datatype Kind = CompiledWasm | Data | TextFile

  datatype Reference = Reference(kind: Kind, id: string)

  const MARKER := "__CLOUDFLARE_MODULE__"

  function NameOf(kind: Kind): (name: string)
    ensures |name| > 1 && '_' !in name
    ensures name[0] == (if kind.CompiledWasm? then 'C' else if kind.Data? then 'D' else 'T') && name[1] != 'L'
  {
    match kind
    case CompiledWasm => "CompiledWasm"
    case Data => "Data"
    case TextFile => "Text"
  }

  /** What a reference starts with. */
  function OpenerOf(kind: Kind): string {
    MARKER + NameOf(kind) + "__"
  }

  function ModuleReferenceId(r: Reference): string {
    OpenerOf(r.kind) + r.id + MARKER
  }

  // ----- `matchAll` with the reference pattern -----

  /** `text` stands in `s` at `i`. */
  predicate At(s: string, i: nat, text: string) {
    i + |text| <= |s| && s[i..i + |text|] == text
  }

  /** Where the lazy `(.*?)` that starts at `from` ends: at the first marker, on the same line. */
  function Closing(s: string, from: nat): (end: Option<nat>)
    requires from <= |s|
    ensures end.Some? ==> from <= end.value && end.value + |MARKER| <= |s|
    decreases |s| - from
  {
    if At(s, from, MARKER) then Some(from)
    else if from == |s| || IsLineTerminator(s[from]) then None
    else Closing(s, from + 1)
  }

  datatype Match = Match(index: nat, end: nat, reference: Reference)

  /** Which alternative of the pattern stands at `i`, with the marker before it and `__` behind it. */
  function KindAt(s: string, i: nat): Option<Kind> {
    if At(s, i, OpenerOf(CompiledWasm)) then Some(CompiledWasm)
    else if At(s, i, OpenerOf(Data)) then Some(Data)
    else if At(s, i, OpenerOf(TextFile)) then Some(TextFile)
    else None
  }

  /** The pattern at `i`. */
  function MatchAt(s: string, i: nat): (m: Option<Match>)
    ensures m.Some? ==> m.value.index == i < m.value.end <= |s|
  {
    match KindAt(s, i)
    case None => None
    case Some(kind) => MatchOf(s, i, kind)
  }

  function MatchOf(s: string, i: nat, kind: Kind): (m: Option<Match>)
    requires At(s, i, OpenerOf(kind))
    ensures m.Some? ==> m.value.index == i < m.value.end <= |s|
  {
    var from := i + |OpenerOf(kind)|;
    MatchUpTo(s, i, kind, from, Closing(s, from))
  }

  function MatchUpTo(s: string, i: nat, kind: Kind, from: nat, end: Option<nat>): Option<Match>
    requires end.Some? ==> from <= end.value <= |s|
  {
    match end
    case None => None
    case Some(end) => Some(Match(i, end + |MARKER|, Reference(kind, s[from..end])))
  }

  function Matcher(s: string): nat -> Option<Match> {
    (i: nat) => MatchAt(s, i)
  }

  ghost predicate Progresses(matchAt: nat -> Option<Match>, n: nat) {
    forall i: nat :: matchAt(i).Some? ==> matchAt(i).value.index == i < matchAt(i).value.end <= n
  }

  /** `code.matchAll(regex)` from position `i`, in a text of `n` characters: leftmost matches, none overlapping. */
  function MatchAll(matchAt: nat -> Option<Match>, n: nat, i: nat): seq<Match>
    requires Progresses(matchAt, n) && i <= n
    decreases n - i
  {
    if i == n then []
    else
      match matchAt(i)
      case None => MatchAll(matchAt, n, i + 1)
      case Some(m) => [m] + MatchAll(matchAt, n, m.end)
  }

  function ReferencesIn(code: string): seq<Match> {
    assert Progresses(Matcher(code), |code|);
    MatchAll(Matcher(code), |code|, 0)
  }

  // ----- markers do not run into each other -----

  lemma MarkerUnderscores()
    ensures |MARKER| == 21 && MARKER[0] == MARKER[1] == '_' && MARKER[2] == 'C' && MARKER[3] == 'L'
    ensures forall d :: 1 <= d <= 18 ==> MARKER[d] != '_' || MARKER[d + 1] != '_'
  {
  }

  lemma CharOf(s: string, i: nat, text: string, k: nat)
    requires At(s, i, text) && k < |text|
    ensures s[i + k] == text[k]
  {
    assert s[i..i + |text|][k] == s[i + k];
  }

  /** Two markers in one text share at most two underscores. */
  lemma MarkersApart(s: string, p: nat, q: nat)
    requires p < q && At(s, p, MARKER) && At(s, q, MARKER)
    ensures p + 19 <= q
  {
    MarkerUnderscores();
    if q < p + 19 {
      CharOf(s, q, MARKER, 0);
      CharOf(s, q, MARKER, 1);
      CharOf(s, p, MARKER, q - p);
      CharOf(s, p, MARKER, q - p + 1);
    }
  }

  predicate Occurs(text: string, s: string) {
    exists i: nat :: i <= |s| && At(s, i, text)
  }

  /** An id that survives the markers: on one line, with no marker inside or running into the closing one. */
  predicate IsEncodable(id: string) {
    OneLine(id) && !Occurs(MARKER, id + "__")
  }

  lemma Inside(s: string, from: nat, part: string, i: nat, text: string)
    requires At(s, from, part) && i + |text| <= |part|
    ensures At(s, from + i, text) <==> At(part, i, text)
  {
    var window := s[from..from + |part|];
    assert forall k {:trigger window[i..i + |text|][k]} :: 0 <= k < |text| ==>
      s[from + i..from + i + |text|][k] == window[i..i + |text|][k];
    assert s[from + i..from + i + |text|] == window[i..i + |text|];
  }

  lemma Unconcat(s: string, i: nat, a: string, b: string)
    requires At(s, i, a + b)
    ensures At(s, i, a) && At(s, i + |a|, b)
  {
    assert s[i..i + |a|] == s[i..i + |a + b|][..|a|];
    assert s[i + |a|..i + |a| + |b|] == s[i..i + |a + b|][|a|..];
  }

  lemma MarkerStart(s: string, i: nat)
    requires At(s, i, MARKER)
    ensures At(s, i, "__")
  {
    MarkerUnderscores();
    CharOf(s, i, MARKER, 0);
    CharOf(s, i, MARKER, 1);
    assert s[i..i + 2] == [s[i], s[i + 1]];
  }

  /** Before the closing marker of an encodable id there is no other marker. */
  lemma NoEarlierMarker(s: string, from: nat, id: string, q: nat)
    requires At(s, from, id) && At(s, from + |id|, MARKER) && from <= q < from + |id| && At(s, q, MARKER)
    ensures Occurs(MARKER, id + "__")
  {
    MarkersApart(s, q, from + |id|);
    MarkerUnderscores();
    MarkerStart(s, from + |id|);
    Inside(s, from, id + "__", q - from, MARKER);
  }

  lemma {:induction false} ClosingIsFirst(s: string, from: nat, end: nat)
    requires from <= end && At(s, end, MARKER)
    ensures Closing(s, from) == Some(end) <==> OneLine(s[from..end]) && forall q :: from <= q < end ==> !At(s, q, MARKER)
    decreases end - from
  {
    if from < end {
      ClosingIsFirst(s, from + 1, end);
      assert s[from..end] == [s[from]] + s[from + 1..end];
      OneLineConcat([s[from]], s[from + 1..end]);
    }
  }

  lemma ClosingOfId(s: string, from: nat, id: string)
    requires At(s, from, id) && At(s, from + |id|, MARKER)
    ensures Closing(s, from) == Some(from + |id|) <==> IsEncodable(id)
  {
    var end := from + |id|;
    ClosingIsFirst(s, from, end);
    if IsEncodable(id) {
      forall q | from <= q < end
        ensures !At(s, q, MARKER)
      {
        if At(s, q, MARKER) {
          NoEarlierMarker(s, from, id, q);
        }
      }
    }
    if Occurs(MARKER, id + "__") {
      MarkerUnderscores();
      MarkerStart(s, end);
      var i: nat :| i <= |id + "__"| && At(id + "__", i, MARKER);
      Inside(s, from, id + "__", i, MARKER);
      assert At(s, from + i, MARKER) && from + i < end;
    }
  }

  lemma OpenerIsUnique(s: string, i: nat, kind: Kind, other: Kind)
    requires At(s, i, OpenerOf(kind)) && At(s, i, OpenerOf(other))
    ensures kind == other
  {
    NameBehindMarker(s, i, kind);
    NameBehindMarker(s, i, other);
    CharOf(s, i + |MARKER|, NameOf(kind), 0);
    CharOf(s, i + |MARKER|, NameOf(other), 0);
  }

  lemma NameBehindMarker(s: string, i: nat, kind: Kind)
    requires At(s, i, OpenerOf(kind))
    ensures At(s, i, MARKER) && At(s, i + |MARKER|, NameOf(kind))
    ensures |OpenerOf(kind)| == |MARKER| + |NameOf(kind)| + 2
  {
    Unconcat(s, i, MARKER + NameOf(kind), "__");
    Unconcat(s, i, MARKER, NameOf(kind));
  }

  lemma MatchWithOpener(s: string, i: nat, kind: Kind)
    requires At(s, i, OpenerOf(kind))
    ensures MatchAt(s, i) == MatchOf(s, i, kind)
  {
    forall other | At(s, i, OpenerOf(other))
      ensures other == kind
    {
      OpenerIsUnique(s, i, kind, other);
    }
  }

  lemma PartsOfReference(s: string, i: nat, opener: string, id: string, closer: string)
    requires At(s, i, opener + id + closer)
    ensures At(s, i, opener) && At(s, i + |opener|, id) && At(s, i + |opener| + |id|, closer)
  {
    Unconcat(s, i, opener + id, closer);
    Unconcat(s, i, opener, id);
  }

  lemma MatchAtId(s: string, i: nat, kind: Kind, from: nat, id: string)
    requires At(s, i, OpenerOf(kind)) && from == i + |OpenerOf(kind)| && At(s, from, id)
    ensures MatchAt(s, i) == Some(Match(i, from + |id| + |MARKER|, Reference(kind, id))) <==> Closing(s, from) == Some(from + |id|)
  {
    MatchWithOpener(s, i, kind);
  }

  lemma ReadBack(s: string, i: nat, kind: Kind, from: nat, id: string)
    requires At(s, i, OpenerOf(kind)) && from == i + |OpenerOf(kind)| && At(s, from, id) && At(s, from + |id|, MARKER)
    ensures MatchAt(s, i) == Some(Match(i, from + |id| + |MARKER|, Reference(kind, id))) <==> IsEncodable(id)
  {
    ClosingOfId(s, from, id);
    MatchAtId(s, i, kind, from, id);
  }

  /** A reference is read back, wherever it stands and whatever follows, exactly when its id is encodable. */
  lemma ReferenceIsReadBack(s: string, i: nat, r: Reference)
    requires At(s, i, ModuleReferenceId(r))
    ensures MatchAt(s, i) == Some(Match(i, i + |ModuleReferenceId(r)|, r)) <==> IsEncodable(r.id)
  {
    PartsOfReference(s, i, OpenerOf(r.kind), r.id, MARKER);
    ReadBack(s, i, r.kind, i + |OpenerOf(r.kind)|, r.id);
  }

  lemma CompletesMarker(id: string)
    requires id == "__CLOUDFLARE_MODULE"
    ensures !IsEncodable(id)
  {
    assert id + "__" == MARKER;
    assert At(id + "__", 0, MARKER);
  }

  /** An id that its own closing marker completes to an earlier one is not read back anywhere. */
  lemma MarkerIsCompletedEarly(s: string, i: nat, r: Reference)
    requires At(s, i, ModuleReferenceId(r)) && r.id == "__CLOUDFLARE_MODULE"
    ensures MatchAt(s, i) != Some(Match(i, i + |ModuleReferenceId(r)|, r))
  {
    CompletesMarker(r.id);
    ReferenceIsReadBack(s, i, r);
  }

  // ----- text between references -----

  predicate OpensAt(s: string, i: nat) {
    exists kind :: At(s, i, OpenerOf(kind))
  }

  /** No reference begins in `piece`, even when the next thing is a marker. */
  predicate IsQuiet(piece: string) {
    forall i: nat :: i < |piece| ==> !OpensAt(piece + "__", i)
  }

  /** An opener that begins before a marker ends with that marker's underscores at the latest. */
  lemma OpenerBeforeMarker(s: string, i: nat, kind: Kind, t: nat)
    requires i < t && At(s, i, OpenerOf(kind)) && At(s, t, MARKER)
    ensures i + |OpenerOf(kind)| <= t + 2
  {
    var name, at := NameOf(kind), i + |MARKER|;
    MarkerUnderscores();
    NameBehindMarker(s, i, kind);
    MarkersApart(s, i, t);
  }

  lemma OpenerInPiece(s: string, p: nat, piece: string, i: nat, kind: Kind)
    requires At(s, p, piece) && p <= i < p + |piece| && At(s, i, OpenerOf(kind))
    requires p + |piece| == |s| || At(s, p + |piece|, MARKER)
    ensures At(piece + "__", i - p, OpenerOf(kind))
  {
    if i + |OpenerOf(kind)| <= p + |piece| {
      InsidePiece(s, p, piece, i, OpenerOf(kind), "__");
    } else {
      OpenerBeforeMarker(s, i, kind, p + |piece|);
      MarkerStart(s, p + |piece|);
      Inside(s, p, piece + "__", i - p, OpenerOf(kind));
    }
  }

  lemma InsidePiece(s: string, p: nat, piece: string, i: nat, text: string, padding: string)
    requires At(s, p, piece) && p <= i && i + |text| <= p + |piece| && At(s, i, text)
    ensures At(piece + padding, i - p, text)
  {
    Inside(s, p, piece, i - p, text);
    assert (piece + padding)[..|piece|] == piece;
    Inside(piece + padding, 0, piece, i - p, text);
  }

  lemma NothingOpensInPiece(s: string, p: nat, piece: string, i: nat)
    requires IsQuiet(piece) && At(s, p, piece) && p <= i < p + |piece|
    requires p + |piece| == |s| || At(s, p + |piece|, MARKER)
    ensures !OpensAt(s, i)
  {
    if OpensAt(s, i) {
      OpensInPiece(s, p, piece, i);
    }
  }

  lemma OpensInPiece(s: string, p: nat, piece: string, i: nat)
    requires At(s, p, piece) && p <= i < p + |piece| && OpensAt(s, i)
    requires p + |piece| == |s| || At(s, p + |piece|, MARKER)
    ensures OpensAt(piece + "__", i - p)
  {
    var kind :| At(s, i, OpenerOf(kind));
    OpenerInPiece(s, p, piece, i, kind);
  }

  // ----- code as text pieces interleaved with references -----

  datatype Marked = Last(text: string) | Piece(text: string, reference: Reference, rest: Marked)

  /** The code with every reference shown as `show` says. */
  function Render(m: Marked, show: Reference -> string): string {
    match m
    case Last(text) => text
    case Piece(text, r, rest) => text + (show(r) + Render(rest, show))
  }

  /** The references with the places where they stand when the code begins at `p`. */
  function Placed(m: Marked, show: Reference -> string, p: nat): seq<Match> {
    match m
    case Last(_) => []
    case Piece(text, r, rest) =>
      var start := p + |text|;
      var end := start + |show(r)|;
      [Match(start, end, r)] + Placed(rest, show, end)
  }

  /** No piece opens a reference, and every id survives the markers. */
  predicate IsWellMarked(m: Marked) {
    match m
    case Last(text) => IsQuiet(text)
    case Piece(text, r, rest) => IsQuiet(text) && IsEncodable(r.id) && IsWellMarked(rest)
  }

  lemma Placing(s: string, p: nat, a: string, b: string, rest: string)
    requires p <= |s| && s[p..] == a + (b + rest)
    ensures At(s, p, a) && At(s, p + |a|, b) && p + |a| + |b| <= |s| && s[p + |a| + |b|..] == rest
  {
    var t := s[p..];
    assert |t| == |a| + |b| + |rest|;
    assert s[p..p + |a|] == t[..|a|];
    assert s[p + |a|..p + |a| + |b|] == t[|a|..|a| + |b|];
    assert s[p + |a| + |b|..] == t[|a| + |b|..];
  }

  lemma StartsWithMarker(s: string, i: nat, r: Reference)
    requires At(s, i, ModuleReferenceId(r))
    ensures At(s, i, MARKER)
  {
    PartsOfReference(s, i, OpenerOf(r.kind), r.id, MARKER);
    NameBehindMarker(s, i, r.kind);
  }

  /** A piece of text ends where the code does or where a marker stands. */
  predicate EndsAt(s: string, t: nat) {
    t == |s| || At(s, t, MARKER)
  }

  ghost predicate FindsNothing(matchAt: nat -> Option<Match>, p: nat, t: nat) {
    forall i :: p <= i < t ==> matchAt(i).None?
  }

  ghost predicate SkipsPieces(matchAt: nat -> Option<Match>, s: string) {
    forall p: nat, piece :: IsQuiet(piece) && At(s, p, piece) && EndsAt(s, p + |piece|) ==> FindsNothing(matchAt, p, p + |piece|)
  }

  predicate IsReadAt(matchAt: nat -> Option<Match>, s: string, i: nat, id: string, r: Reference) {
    matchAt(i) == Some(Match(i, i + |id|, r)) && EndsAt(s, i) && id != ""
  }

  ghost predicate ReadsReferences(matchAt: nat -> Option<Match>, show: Reference -> string, s: string) {
    forall i: nat, r :: At(s, i, show(r)) && IsEncodable(r.id) ==> IsReadAt(matchAt, s, i, show(r), r)
  }

  lemma MatcherSkipsPieces(s: string)
    ensures SkipsPieces(Matcher(s), s)
  {
    forall p: nat, piece, i | IsQuiet(piece) && At(s, p, piece) && EndsAt(s, p + |piece|) && p <= i < p + |piece|
      ensures MatchAt(s, i).None?
    {
      NothingOpensInPiece(s, p, piece, i);
    }
  }

  lemma MatcherReads(s: string, i: nat, r: Reference)
    requires At(s, i, ModuleReferenceId(r)) && IsEncodable(r.id)
    ensures IsReadAt(Matcher(s), s, i, ModuleReferenceId(r), r)
  {
    ReferenceIsReadBack(s, i, r);
    StartsWithMarker(s, i, r);
  }

  lemma MatcherReadsReferences(s: string)
    ensures ReadsReferences(Matcher(s), ModuleReferenceId, s)
  {
    forall i: nat, r | At(s, i, ModuleReferenceId(r)) && IsEncodable(r.id)
      ensures IsReadAt(Matcher(s), s, i, ModuleReferenceId(r), r)
    {
      MatcherReads(s, i, r);
    }
  }

  lemma {:induction false} SkipTo(matchAt: nat -> Option<Match>, n: nat, i: nat, t: nat)
    requires Progresses(matchAt, n) && i <= t <= n && FindsNothing(matchAt, i, t)
    ensures MatchAll(matchAt, n, i) == MatchAll(matchAt, n, t)
    decreases t - i
  {
    if i < t {
      SkipTo(matchAt, n, i + 1, t);
    }
  }

  /** Where `m` stands from `p` on, the matcher finds nothing in the pieces and each reference in its place. */
  ghost predicate IsFound(matchAt: nat -> Option<Match>, show: Reference -> string, m: Marked, p: nat) {
    match m
    case Last(text) => FindsNothing(matchAt, p, p + |text|)
    case Piece(text, r, rest) =>
      var start := p + |text|;
      var end := start + |show(r)|;
      FindsNothing(matchAt, p, start) && matchAt(start) == Some(Match(start, end, r)) && IsFound(matchAt, show, rest, end)
  }

  lemma {:induction false} WellMarkedIsFound(matchAt: nat -> Option<Match>, show: Reference -> string,
          m: Marked, s: string, p: nat)
    requires SkipsPieces(matchAt, s) && ReadsReferences(matchAt, show, s)
    requires IsWellMarked(m) && p <= |s| && s[p..] == Render(m, show)
    ensures IsFound(matchAt, show, m, p)
    decreases m
  {
    match m
    case Last(text) =>
      assert At(s, p, text) && EndsAt(s, p + |text|);
    case Piece(text, r, rest) =>
      Placing(s, p, text, show(r), Render(rest, show));
      WellMarkedIsFound(matchAt, show, rest, s, p + |text| + |show(r)|);
  }

  lemma {:induction false} FoundIsMatched(matchAt: nat -> Option<Match>, show: Reference -> string,
          m: Marked, n: nat, p: nat)
    requires Progresses(matchAt, n) && IsFound(matchAt, show, m, p) && p + |Render(m, show)| == n
    ensures MatchAll(matchAt, n, p) == Placed(m, show, p)
    decreases m
  {
    match m
    case Last(text) =>
      SkipTo(matchAt, n, p, n);
    case Piece(text, r, rest) =>
      var start, end := p + |text|, p + |text| + |show(r)|;
      FoundIsMatched(matchAt, show, rest, n, end);
      StepOver(matchAt, n, p, start, Match(start, end, r));
  }

  lemma StepOver(matchAt: nat -> Option<Match>, n: nat, p: nat, start: nat, m: Match)
    requires Progresses(matchAt, n) && p <= start < n && FindsNothing(matchAt, p, start) && matchAt(start) == Some(m)
    ensures MatchAll(matchAt, n, p) == [m] + MatchAll(matchAt, n, m.end)
  {
    SkipTo(matchAt, n, p, start);
  }

  /** `matchAll` finds exactly the references, each with the type and path it was made from. */
  lemma ReferencesInMarkedCode(m: Marked, code: string)
    requires IsWellMarked(m) && code == Render(m, ModuleReferenceId)
    ensures ReferencesIn(code) == Placed(m, ModuleReferenceId, 0)
  {
    MatcherSkipsPieces(code);
    MatcherReadsReferences(code);
    assert code[0..] == code;
    WellMarkedIsFound(Matcher(code), ModuleReferenceId, m, code, 0);
    FoundIsMatched(Matcher(code), ModuleReferenceId, m, |code|, 0);
  }

  // ----- the rewrite -----

  datatype Edit = Edit(start: nat, end: nat, text: string)

  /** Edits from left to right, within `from..n`, none overlapping. */
  predicate InOrder(edits: seq<Edit>, from: nat, n: nat) {
    if edits == [] then from <= n
    else from <= edits[0].start <= edits[0].end && InOrder(edits[1..], edits[0].end, n)
  }

  function Edited(s: string, edits: seq<Edit>, from: nat): string
    requires InOrder(edits, from, |s|)
    decreases |edits|
  {
    if edits == [] then s[from..]
    else
      InOrderBounds(edits, from, |s|);
      s[from..edits[0].start] + (edits[0].text + Edited(s, edits[1..], edits[0].end))
  }

  lemma {:induction false} InOrderBounds(edits: seq<Edit>, from: nat, n: nat)
    requires InOrder(edits, from, n)
    ensures from <= n && forall i :: 0 <= i < |edits| ==> from <= edits[i].start <= edits[i].end <= n
    decreases |edits|
  {
    if edits != [] {
      InOrderBounds(edits[1..], edits[0].end, n);
      assert forall i :: 1 <= i < |edits| ==> edits[i] == edits[1..][i - 1];
    }
  }

  lemma {:induction false} InOrderSnoc(edits: seq<Edit>, e: Edit, from: nat, n: nat)
    requires InOrder(edits, from, n) && e.start <= e.end <= n
    requires (if edits == [] then from else edits[|edits| - 1].end) <= e.start
    ensures InOrder(edits + [e], from, n)
    decreases |edits|
  {
    if edits != [] {
      InOrderSnoc(edits[1..], e, edits[0].end, n);
      assert (edits + [e])[1..] == edits[1..] + [e];
    } else {
      assert ([] + [e])[1..] == [];
    }
  }

  /** The part of `magic-string` the rewrite uses: replacements of the original, from left to right. */
  class MagicString {
    const original: string
    var edits: seq<Edit>

    constructor (code: string)
      ensures original == code && edits == []
    {
      original, edits := code, [];
    }

    predicate Valid()
      reads this`edits
    {
      InOrder(edits, 0, |original|)
    }

    method Update(start: nat, end: nat, content: string)
      requires Valid() && start <= end <= |original|
      requires (if edits == [] then 0 else edits[|edits| - 1].end) <= start
      modifies this`edits
      ensures Valid() && edits == old(edits) + [Edit(start, end, content)]
    {
      InOrderSnoc(edits, Edit(start, end, content), 0, |original|);
      edits := edits + [Edit(start, end, content)];
    }

    function ToString(): string
      requires Valid()
      reads this`edits
    {
      Edited(original, edits, 0)
    }
  }

  /** The edits that give each match the import path of the file emitted for its reference. */
  function EditsFor(matches: seq<Match>, importPath: Reference -> string): (edits: seq<Edit>)
    ensures |edits| == |matches|
    ensures forall i :: 0 <= i < |matches| ==> edits[i] == Edit(matches[i].index, matches[i].end, importPath(matches[i].reference))
  {
    if matches == [] then []
    else [Edit(matches[0].index, matches[0].end, importPath(matches[0].reference))] + EditsFor(matches[1..], importPath)
  }

  lemma {:induction false} MatchesInOrder(matchAt: nat -> Option<Match>, n: nat, i: nat,
          importPath: Reference -> string)
    requires Progresses(matchAt, n) && i <= n
    ensures InOrder(EditsFor(MatchAll(matchAt, n, i), importPath), i, n)
    decreases n - i
  {
    if i < n {
      match matchAt(i)
      case None =>
        MatchesInOrder(matchAt, n, i + 1, importPath);
      case Some(m) =>
        MatchesInOrder(matchAt, n, m.end, importPath);
        assert MatchAll(matchAt, n, i)[1..] == MatchAll(matchAt, n, m.end);
    }
  }

  lemma EditsInOrder(code: string, importPath: Reference -> string)
    ensures InOrder(EditsFor(ReferencesIn(code), importPath), 0, |code|)
  {
    MatchesInOrder(Matcher(code), |code|, 0, importPath);
  }

  lemma {:induction false} InOrderNeighbours(edits: seq<Edit>, from: nat, n: nat, k: nat)
    requires InOrder(edits, from, n) && k < |edits|
    ensures InOrder(edits[..k], from, n) && edits[k].start <= edits[k].end <= n
    ensures (if k == 0 then from else edits[k - 1].end) <= edits[k].start
    decreases k
  {
    InOrderBounds(edits, from, n);
    if k > 0 {
      InOrderNeighbours(edits[1..], edits[0].end, n, k - 1);
      assert edits[..k][1..] == edits[1..][..k - 1];
    }
  }

  /** The `renderChunk` handler; `importPath` is what the file emitted for a reference is imported as. */
  method RenderChunk(code: string, importPath: Reference -> string) returns (rewritten: string)
    ensures InOrder(EditsFor(ReferencesIn(code), importPath), 0, |code|)
    ensures rewritten == Edited(code, EditsFor(ReferencesIn(code), importPath), 0)
  {
    EditsInOrder(code, importPath);
    rewritten := ReplaceMatches(code, ReferencesIn(code), importPath);
  }

  /** The loop over the matches. */
  method ReplaceMatches(code: string, matches: seq<Match>, importPath: Reference -> string) returns (rewritten: string)
    requires InOrder(EditsFor(matches, importPath), 0, |code|)
    ensures rewritten == Edited(code, EditsFor(matches, importPath), 0)
  {
    var magicString := new MagicString(code);
    ghost var edits := EditsFor(matches, importPath);
    for k := 0 to |matches|
      invariant magicString.original == code && magicString.Valid()
      invariant magicString.edits == edits[..k]
    {
      InOrderNeighbours(edits, 0, |code|, k);
      magicString.Update(matches[k].index, matches[k].end, importPath(matches[k].reference));
      assert edits[..k + 1] == edits[..k] + [edits[k]];
    }
    assert edits[..|matches|] == edits;
    rewritten := magicString.ToString();
  }

  lemma {:induction false} EditedIsRendered(m: Marked, show: Reference -> string,
          importPath: Reference -> string, s: string, p: nat)
    requires p <= |s| && s[p..] == Render(m, show)
    ensures InOrder(EditsFor(Placed(m, show, p), importPath), p, |s|)
    ensures Edited(s, EditsFor(Placed(m, show, p), importPath), p) == Render(m, importPath)
    decreases m
  {
    match m
    case Last(_) =>
    case Piece(text, r, rest) =>
      var start, end := p + |text|, p + |text| + |show(r)|;
      Placing(s, p, text, show(r), Render(rest, show));
      EditedIsRendered(rest, show, importPath, s, end);
  }

  /**
   The rewrite of well-marked code replaces exactly the references, each by the import path for the
   type and path that it encodes, and leaves every piece as it was.
   */
  method RewriteMarkedCode(m: Marked, importPath: Reference -> string) returns (rewritten: string)
    requires IsWellMarked(m)
    ensures rewritten == Render(m, importPath)
  {
    var code := Render(m, ModuleReferenceId);
    ReferencesInMarkedCode(m, code);
    assert code[0..] == code;
    EditedIsRendered(m, ModuleReferenceId, importPath, code, 0);
    rewritten := RenderChunk(code, importPath);
  }
}
