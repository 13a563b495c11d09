/** What the step does to a transformed text that is well formed: literal
    text without `%`, and placeholders `{%<symbol>%}` whose symbols contain
    neither `%` nor `{` (class names and TypeScript names never do). On such
    a text the left-to-right scans can only match whole placeholders, so the
    step amounts to filling each placeholder independently. */
module Placeholders {
  import opened StrReplace
  import opened Structures
  import opened ReplaceMissingSymbolsStep

  /** A piece of a transformed text: literal output, or a placeholder. */
  datatype Segment = Lit(text: string) | Hole(symbol: Symbol)

  /** The text a segment stands for. */
  function SegmentText(seg: Segment): string {
    match seg
    case Lit(l) => l
    case Hole(s) => Token(s)
  }

  function Render(segs: seq<Segment>): string
    decreases |segs|
  {
    if segs == [] then [] else SegmentText(segs[0]) + Render(segs[1..])
  }

  predicate PlainSymbol(s: Symbol) {
    '%' !in s && '{' !in s
  }

  predicate WellFormedSegment(seg: Segment) {
    match seg
    case Lit(l) => '%' !in l
    case Hole(s) => PlainSymbol(s)
  }

  predicate WellFormed(segs: seq<Segment>) {
    forall k :: 0 <= k < |segs| ==> WellFormedSegment(segs[k])
  }

  /** A placeholder whose symbol has a value in `vals` becomes that value. */
  function Fill(seg: Segment, vals: map<Symbol, string>): Segment {
    match seg
    case Lit(_) => seg
    case Hole(s) => if s in vals then Lit(vals[s]) else seg
  }

  function FillAll(segs: seq<Segment>, vals: map<Symbol, string>): (r: seq<Segment>)
    ensures |r| == |segs|
  {
    seq(|segs|, k requires 0 <= k < |segs| => Fill(segs[k], vals))
  }

  /** The independent reading of the step: each placeholder on its own is
      replaced by `any` when its symbol is a missing symbol not in the
      collection, by the entry's name when it is a missing symbol found
      non-inline, and otherwise left as it is. */
  function ResolveSegment(seg: Segment, types: seq<Type>, missing: seq<Symbol>): Segment {
    match seg
    case Lit(_) => seg
    case Hole(s) =>
      if s in missing then
        match Replacement(FindIn(types, s))
        case Some(v) => Lit(v)
        case None => seg
      else seg
  }

  function ResolveSegments(segs: seq<Segment>, types: seq<Type>, missing: seq<Symbol>): (r: seq<Segment>)
    ensures |r| == |segs|
  {
    seq(|segs|, k requires 0 <= k < |segs| => ResolveSegment(segs[k], types, missing))
  }

  /** The collection's entries have names without `%`. */
  predicate PlainNames(types: seq<Type>) {
    forall k :: 0 <= k < |types| ==> '%' !in types[k].typescriptName
  }

  predicate PlainMissing(missing: seq<Symbol>) {
    forall k :: 0 <= k < |missing| ==> '%' !in missing[k]
  }

  // ---- scanning over literal text ----

  /** A placeholder cannot start inside literal text. */
  lemma NoMatchInLiteral(l: string, rest: string, p: string)
    requires l != [] && '%' !in l
    requires rest == [] || rest[0] != '%'
    requires |p| >= 2 && p[0] == '{' && p[1] == '%'
    ensures !(p <= l + rest)
  {
  }

  lemma {:induction false} SkipLiteral(l: string, rest: string, p: string, v: string)
    requires '%' !in l
    requires rest == [] || rest[0] != '%'
    requires |p| >= 2 && p[0] == '{' && p[1] == '%'
    ensures ReplaceAll(l + rest, p, v) == l + ReplaceAll(rest, p, v)
    decreases |l|
  {
    if l == [] {
      assert l + rest == rest;
    } else {
      var text := l + rest;
      NoMatchInLiteral(l, rest, p);
      assert text[1..] == l[1..] + rest;
      assert '%' !in l[1..] by {
        assert forall c :: c in l[1..] ==> c in l;
      }
      SkipLiteral(l[1..], rest, p, v);
      assert l == [l[0]] + l[1..];
      assert ReplaceAll(text, p, v) == [l[0]] + ReplaceAll(l[1..] + rest, p, v);
    }
  }

  lemma {:induction false} SkipNoBrace(l: string, rest: string, p: string, v: string)
    requires '{' !in l
    requires p != [] && p[0] == '{'
    ensures ReplaceAll(l + rest, p, v) == l + ReplaceAll(rest, p, v)
    decreases |l|
  {
    if l != [] {
      var text := l + rest;
      assert text[0] == l[0];
      assert text[1..] == l[1..] + rest;
      SkipNoBrace(l[1..], rest, p, v);
      calc {
        ReplaceAll(text, p, v);
        [l[0]] + ReplaceAll(l[1..] + rest, p, v);
        [l[0]] + (l[1..] + ReplaceAll(rest, p, v));
        { assert l == [l[0]] + l[1..]; }
        l + ReplaceAll(rest, p, v);
      }
    } else {
      assert l + rest == rest;
    }
  }

  /** The placeholder of one plain symbol never matches at the start of the
      placeholder of another. */
  lemma TokenMismatch(s: Symbol, t: Symbol, rest: string)
    requires '%' !in s && '%' !in t && s != t
    ensures !(Token(s) <= Token(t) + rest)
  {
    var a, b := Token(s), Token(t) + rest;
    if |s| == |t| {
      var i :| 0 <= i < |s| && s[i] != t[i];
      assert a[2 + i] == s[i] && b[2 + i] == t[i];
    } else if |s| < |t| {
      assert a[2 + |s|] == '%' && b[2 + |s|] == t[|s|];
    } else {
      assert b[2 + |t|] == '%' && a[2 + |t|] == s[|t|];
    }
  }

  lemma {:induction false} RenderHead(segs: seq<Segment>)
    requires WellFormed(segs)
    ensures Render(segs) == [] || Render(segs)[0] != '%'
    decreases |segs|
  {
    if segs != [] {
      assert WellFormedSegment(segs[0]);
      match segs[0]
      case Lit(l) =>
        if l == [] {
          RenderHead(segs[1..]);
        }
      case Hole(s) =>
    }
  }

  lemma RenderFillCons(segs: seq<Segment>, vals: map<Symbol, string>)
    requires segs != []
    ensures Render(FillAll(segs, vals)) == SegmentText(Fill(segs[0], vals)) + Render(FillAll(segs[1..], vals))
  {
    var filled := FillAll(segs, vals);
    assert filled[0] == Fill(segs[0], vals);
    assert filled[1..] == FillAll(segs[1..], vals);
  }

  /** The scan over a placeholder: it is replaced when it is the one being
      replaced, and passed over whole otherwise. */
  lemma ReplaceAtHole(t: Symbol, s: Symbol, rest: string, v: string)
    requires PlainSymbol(t) && '%' !in s
    ensures ReplaceAll(Token(t) + rest, Token(s), v) ==
      (if t == s then v else Token(t)) + ReplaceAll(rest, Token(s), v)
  {
    var p, tok := Token(s), Token(t);
    if t == s {
      assert p <= tok + rest;
      assert (tok + rest)[|p|..] == rest;
    } else {
      TokenMismatch(s, t, rest);
      assert (tok + rest)[1..] == tok[1..] + rest;
      assert tok[1..] == "%" + t + "%}";
      SkipNoBrace(tok[1..], rest, p, v);
      assert tok == [tok[0]] + tok[1..];
    }
  }

  /** One `str_replace` of a plain symbol's placeholder fills exactly the
      holes of that symbol, whatever the replacement text. */
  lemma {:induction false} ReplaceInTemplate(segs: seq<Segment>, s: Symbol, v: string)
    requires WellFormed(segs) && '%' !in s
    ensures ReplaceAll(Render(segs), Token(s), v) == Render(FillAll(segs, map[s := v]))
    decreases |segs|
  {
    if segs != [] {
      var rest := segs[1..];
      var R := Render(rest);
      ReplaceInTemplate(rest, s, v);
      RenderFillCons(segs, map[s := v]);
      assert WellFormedSegment(segs[0]);
      match segs[0]
      case Lit(l) =>
        RenderHead(rest);
        SkipLiteral(l, R, Token(s), v);
      case Hole(t) =>
        ReplaceAtHole(t, s, R, v);
    }
  }

  /** The values of `values` restricted to `keys`. */
  function Restrict(keys: seq<Symbol>, values: map<Symbol, string>): (r: map<Symbol, string>)
    requires forall k :: k in keys ==> k in values
    ensures forall k :: k in r <==> k in keys
    ensures forall k :: k in r ==> r[k] == values[k]
  {
    map k | k in keys :: values[k]
  }

  lemma FillTwice(segs: seq<Segment>, m: map<Symbol, string>, k: Symbol, v: string)
    requires k in m ==> m[k] == v
    ensures FillAll(FillAll(segs, m), map[k := v]) == FillAll(segs, m[k := v])
  {
  }

  lemma FillKeepsWellFormed(segs: seq<Segment>, m: map<Symbol, string>)
    requires WellFormed(segs)
    requires forall k :: k in m ==> '%' !in m[k]
    ensures WellFormed(FillAll(segs, m))
  {
  }

  /** Applying several placeholders one after another fills the holes of
      all of them. */
  lemma {:induction false} ApplyAllInTemplate(segs: seq<Segment>, keys: seq<Symbol>, values: map<Symbol, string>)
    requires WellFormed(segs)
    requires forall k :: k in keys ==> k in values && '%' !in k && '%' !in values[k]
    ensures ApplyAll(Render(segs), keys, values) == Render(FillAll(segs, Restrict(keys, values)))
    decreases |keys|
  {
    if keys == [] {
      assert FillAll(segs, map[]) == segs;
    } else {
      var init := keys[..|keys| - 1];
      var k := keys[|keys| - 1];
      assert keys == init + [k];
      ApplyAllInTemplate(segs, init, values);
      var m0 := Restrict(init, values);
      assert m0[k := values[k]] == Restrict(keys, values);
      FillKeepsWellFormed(segs, m0);
      ReplaceInTemplate(FillAll(segs, m0), k, values[k]);
      FillTwice(segs, m0, k, values[k]);
    }
  }

  /** The step on a well-formed text: the result is the text with every
      placeholder resolved on its own (unknown symbol: `any`; found
      non-inline: the entry's name; inline or not missing: left as it is). */
  lemma ResolveTemplate(segs: seq<Segment>, types: seq<Type>, missing: seq<Symbol>)
    requires WellFormed(segs) && PlainNames(types) && PlainMissing(missing)
    ensures ResolvedText(Render(segs), types, missing) == Render(ResolveSegments(segs, types, missing))
  {
    var m := ReplacementMap(types, missing);
    ReplacementMapEntries(types, missing);
    forall k | k in m.keys
      ensures k in m.values && '%' !in k && '%' !in m.values[k]
    {
      assert k in missing;
      var found := FindIn(types, k);
      if found.Some? {
        var i :| 0 <= i < |types| && types[i] == found.value;
      }
    }
    ApplyAllInTemplate(segs, m.keys, m.values);
    var vals := Restrict(m.keys, m.values);
    forall i | 0 <= i < |segs|
      ensures Fill(segs[i], vals) == ResolveSegment(segs[i], types, missing)
    {
      match segs[i]
      case Lit(_) =>
      case Hole(x) =>
        assert x in vals <==> x in m.values;
        if x in vals {
          assert vals[x] == m.values[x];
        }
    }
    assert FillAll(segs, vals) == ResolveSegments(segs, types, missing);
  }

  lemma ResolveSegmentsKeepWellFormed(segs: seq<Segment>, types: seq<Type>, missing: seq<Symbol>)
    requires WellFormed(segs) && PlainNames(types)
    ensures WellFormed(ResolveSegments(segs, types, missing))
  {
  }

  /** On a well-formed text, running the step twice gives the same text as
      running it once. */
  lemma ResolveIdempotentOnTemplates(segs: seq<Segment>, types: seq<Type>, missing: seq<Symbol>)
    requires WellFormed(segs) && PlainNames(types) && PlainMissing(missing)
    ensures var once := ResolvedText(Render(segs), types, missing);
      ResolvedText(once, types, missing) == once
  {
    var segs1 := ResolveSegments(segs, types, missing);
    ResolveTemplate(segs, types, missing);
    ResolveSegmentsKeepWellFormed(segs, types, missing);
    ResolveTemplate(segs1, types, missing);
    assert ResolveSegments(segs1, types, missing) == segs1;
  }

  lemma FillAbsentHole(segs: seq<Segment>, s: Symbol, v: string)
    requires forall k :: 0 <= k < |segs| ==> segs[k] != Hole(s)
    ensures FillAll(segs, map[s := v]) == segs
  {
  }

  /** On a well-formed text, no placeholder of a symbol that got a
      replacement (unknown, or found non-inline) is left after the step. */
  lemma NoResolvedPlaceholderLeft(segs: seq<Segment>, types: seq<Type>, missing: seq<Symbol>, s: Symbol)
    requires WellFormed(segs) && PlainNames(types) && PlainMissing(missing)
    requires s in missing && Replaced(types, s)
    ensures !Occurs(Token(s), ResolvedText(Render(segs), types, missing))
  {
    var segs1 := ResolveSegments(segs, types, missing);
    ResolveTemplate(segs, types, missing);
    ResolveSegmentsKeepWellFormed(segs, types, missing);
    assert '%' !in s by {
      var i :| 0 <= i < |missing| && missing[i] == s;
    }
    var v := Token(s) + "x";
    ReplaceInTemplate(segs1, s, v);
    FillAbsentHole(segs1, s, v);
    UnchangedByLongerMeansNoMatch(Render(segs1), Token(s), v);
  }

  /** Text around a placeholder can form a new one: replacing `{%s%}`
      inside `{%{%s%}%}` by `v` leaves `{%v%}`. */
  lemma ReplaceNestedPlaceholder(s: Symbol, v: string)
    requires '{' !in s
    ensures ReplaceAll("{%" + Token(s) + "%}", Token(s), v) == "{%" + v + "%}"
  {
    var p := Token(s);
    var inner := p + "%}";
    ReplaceAllAtStart(p, "%}", v);
    NoTokenInShortText(s, "%}");
    NoMatchUnchanged("%}", p, v);
    var t1 := "%" + inner;
    assert !(p <= t1) by {
      assert t1[0] == '%' && p[0] == '{';
    }
    ReplaceAllSkipChar(t1, p, v);
    assert t1[1..] == inner;
    var t := "{" + t1;
    assert t == "{%" + Token(s) + "%}";
    TokenNotAtNestedStart(s);
    ReplaceAllSkipChar(t, p, v);
    assert t[1..] == t1 && t[0] == '{' && t1[0] == '%';
    WrapInDelimiters(v);
  }

  lemma WrapInDelimiters(v: string)
    ensures ['{'] + (['%'] + (v + "%}")) == "{%" + v + "%}"
  {
  }

  /** `{%s%}` does not start `{%{%s%}%}` when `s` has no `{`. */
  lemma TokenNotAtNestedStart(s: Symbol)
    requires '{' !in s
    ensures !(Token(s) <= "{%" + Token(s) + "%}")
  {
    var p, t := Token(s), "{%" + Token(s) + "%}";
    assert t[2] == '{';
    if s != [] {
      assert p[2] == s[0];
    }
  }

  /** On a text that is not well formed the step need not be idempotent:
      an entry `s` named `s` turns `{%{%s%}%}` into `{%s%}`, so the
      placeholder of a resolved symbol survives the step, and a second run
      turns it into `s`. */
  lemma ResolveNotIdempotentInGeneral(types: seq<Type>, s: Symbol)
    requires FindIn(types, s).Some? && !FindIn(types, s).value.isInline
    requires FindIn(types, s).value.typescriptName == s && '{' !in s
    ensures ResolvedText("{%" + Token(s) + "%}", types, [s]) == Token(s)
    ensures ResolvedText(Token(s), types, [s]) == s
  {
    ResolvedTextOne("{%" + Token(s) + "%}", types, s, s);
    ResolvedTextOne(Token(s), types, s, s);
    ReplaceNestedPlaceholder(s, s);
    ReplaceWholeText(Token(s), s);
  }

  /** On a text that is not well formed, a later entry can rewrite an
      earlier replacement even when no name contains a placeholder: with
      `s1` named `s2` and `s2` unknown, `{%{%s1%}%}` becomes `{%s2%}` and
      then `any`. */
  lemma SurroundingTextCompletesPlaceholder(types: seq<Type>, s1: Symbol, s2: Symbol)
    requires FindIn(types, s1).Some? && !FindIn(types, s1).value.isInline
    requires FindIn(types, s1).value.typescriptName == s2 && '{' !in s1
    requires FindIn(types, s2).None?
    ensures ResolvedText("{%" + Token(s1) + "%}", types, [s1, s2]) == "any"
  {
    ResolvedTextTwo("{%" + Token(s1) + "%}", types, s1, s2, s2, "any");
    ReplaceNestedPlaceholder(s1, s2);
    ReplaceWholeText(Token(s2), "any");
  }
}
