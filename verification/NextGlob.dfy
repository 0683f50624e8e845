/** The glob compiler of packages/nextjs/src/source.ts. */
module NextGlob {
  import opened Options
  import opened Regex
  import opened Fragments
  import opened Glob

  // The fragments a glob stands for: `**` and a slash become `(?:.*/)?`.
  function GlobBody(glob: string): seq<Fragment> {
    Body(Tokens(glob, true, false), true)
  }

  predicate IsSpecial(c: char) {
    || c == '\\' || c == '^' || c == '$' || c == '.' || c == '|' || c == '+'
    || c == '(' || c == ')' || c == '[' || c == ']' || c == '{' || c == '}'
  }

  function Escaped(ch: char): (r: string)
    ensures ch != '*' && ch != '?' ==> r == SourceOf(Literal(ch))
  {
    if IsSpecial(ch) then ['\\', ch] else [ch]
  }

  lemma GlobCompiles(glob: string, p: string)
    ensures
      var rx := Parse("^" + Emit(GlobBody(glob)) + "$");
      rx.Some? && (Test(rx.value, p) <==> Accepts(Tokens(glob, true, false), p, true))
  {
    AnchoredSource(GlobBody(glob));
    AnchoredMeaning(Tokens(glob, true, false), true, p);
  }

  method GlobToSource(glob: string) returns (out: string)
    ensures out == Emit(GlobBody(glob))
  {
    out := "";
    var i := 0;
    SourceOfGlob(glob, false, true);
    while i < |glob|
      invariant 0 <= i <= |glob|
      invariant out + SourceFrom(glob, i, false, true) == SourceFrom(glob, 0, false, true)
    {
      var ch, text, last := glob[i], "", i;
      if ch == '*' {
        if i + 1 < |glob| && glob[i + 1] == '*' {
          if i + 2 < |glob| && glob[i + 2] == '/' {
            text, last := "(?:.*/)?", i + 2;
          } else {
            text, last := ".*", i + 1;
          }
        } else {
          text := "[^/]*";
        }
      } else if ch == '?' {
        text := "[^/]";
      } else {
        text := Escaped(ch);
      }
      assert (text, last + 1) == Step(glob, i, false, true);
      SourceStep(out, glob, i, false, true);
      out, i := out + text, last + 1;
    }
  }

  /** The compiled expression always exists and accepts what the glob means to Next.js. */
  method GlobToRegExp(glob: string) returns (regex: Option<Rx>)
    ensures regex.Some?
    ensures forall p :: Test(regex.value, p) <==> Accepts(Tokens(glob, true, false), p, true)
  {
    var out := GlobToSource(glob);
    GlobCompiles(glob, "");
    forall p {
      GlobCompiles(glob, p);
    }
    regex := Parse("^" + out + "$");
  }
}
