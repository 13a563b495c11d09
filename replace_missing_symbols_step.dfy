/** The pipeline step that resolves the placeholders `{%<symbol>%}` left in
    every type's transformed text. */
module ReplaceMissingSymbolsStep {
  import opened StrReplace
  import opened OrderedMaps
  import opened Structures

  /** The placeholder that stands for `symbol`: `"{%{$symbol}%}"`. */
  function Token(symbol: Symbol): (p: string)
    ensures |p| == |symbol| + 4 && p[..2] == "{%" && p[|p| - 2..] == "%}"
    ensures p[2..|p| - 2] == symbol
  {
    "{%" + symbol + "%}"
  }

  /** What a lookup result turns into: `any` for an unknown symbol, the
      found entry's name when it is not inline, and no replacement at all
      when it is inline. */
  function Replacement(found: Option<Type>): (r: Option<string>)
    ensures r.None? <==> found.Some? && found.value.isInline
    ensures found.None? ==> r == Some("any")
    ensures found.Some? && r.Some? ==> r.value == found.value.typescriptName
  {
    match found
    case None => Some("any")
    case Some(t) => if t.isInline then None else Some(t.typescriptName)
  }

  /** The symbols that get a map entry. */
  predicate Replaced(types: seq<Type>, symbol: Symbol) {
    Replacement(FindIn(types, symbol)).Some?
  }

  /** The replacement map built by the first loop, after it has seen the
      symbols `missing` in order. */
  function ReplacementMap(types: seq<Type>, missing: seq<Symbol>): (m: OrderedMap)
    ensures m.Valid()
    decreases |missing|
  {
    if missing == [] then Empty
    else
      var m := ReplacementMap(types, missing[..|missing| - 1]);
      var s := missing[|missing| - 1];
      match Replacement(FindIn(types, s))
      case None => m
      case Some(v) => m.Put(s, v)
  }

  /** `text` contains the placeholder of none of `symbols`. */
  predicate NoPlaceholderOf(symbols: seq<Symbol>, text: string) {
    forall k :: k in symbols ==> !Occurs(Token(k), text)
  }

  /** The text after `str_replace` has been applied for each of `keys` in
      turn, every one on the result of the previous one. */
  function ApplyAll(text: string, keys: seq<Symbol>, values: map<Symbol, string>): (r: string)
    requires forall k :: k in keys ==> k in values
    ensures NoPlaceholderOf(keys, text) ==> r == text
    decreases |keys|
  {
    if keys == [] then text
    else
      var k := keys[|keys| - 1];
      var before := ApplyAll(text, keys[..|keys| - 1], values);
      NoMatchUnchanged(before, Token(k), values[k]);
      ReplaceAll(before, Token(k), values[k])
  }

  /** The text a type has after the step, from its text before. */
  function ResolvedText(text: string, types: seq<Type>, missing: seq<Symbol>): (r: string)
    ensures NoPlaceholderOf(missing, text) ==> r == text
  {
    var m := ReplacementMap(types, missing);
    ReplacementMapEntries(types, missing);
    ApplyAll(text, m.keys, m.values)
  }

  /** One more symbol seen by the first loop. */
  lemma ReplacementMapStep(types: seq<Type>, missing: seq<Symbol>, i: nat)
    requires i < |missing|
    ensures Replacement(FindIn(types, missing[i])).None? ==>
      ReplacementMap(types, missing[..i + 1]) == ReplacementMap(types, missing[..i])
    ensures Replacement(FindIn(types, missing[i])).Some? ==>
      ReplacementMap(types, missing[..i + 1]) ==
        ReplacementMap(types, missing[..i]).Put(missing[i], Replacement(FindIn(types, missing[i])).value)
  {
    assert missing[..i + 1][..i] == missing[..i];
  }

  /** One more entry applied by the second loop. */
  lemma ApplyAllStep(text: string, keys: seq<Symbol>, values: map<Symbol, string>, j: nat)
    requires j < |keys| && forall k :: k in keys ==> k in values
    ensures ApplyAll(text, keys[..j + 1], values) ==
      ReplaceAll(ApplyAll(text, keys[..j], values), Token(keys[j]), values[keys[j]])
  {
    assert keys[..j + 1][..j] == keys[..j];
  }

  /** `resolveMissingSymbols`: builds the replacement map, then rewrites
      `t.transformed` one map entry at a time; returns `t` itself. */
  method ResolveMissingSymbols(collection: Collection, t: Type) returns (r: Type)
    modifies t
    ensures r == t
    ensures t.transformed == ResolvedText(old(t.transformed), collection.types, t.missingSymbols)
  {
    var missingSymbols := Empty;
    var i := 0;
    while i < |t.missingSymbols|
      invariant 0 <= i <= |t.missingSymbols|
      invariant missingSymbols == ReplacementMap(collection.types, t.missingSymbols[..i])
      invariant t.transformed == old(t.transformed)
    {
      var symbol := t.missingSymbols[i];
      var foundSymbol := collection.Find(symbol);
      ReplacementMapStep(collection.types, t.missingSymbols, i);
      assert foundSymbol == FindIn(collection.types, symbol);
      if foundSymbol.None? {
        missingSymbols := missingSymbols.Put(symbol, "any");
      } else if !foundSymbol.value.isInline {
        missingSymbols := missingSymbols.Put(symbol, foundSymbol.value.typescriptName);
      }
      i := i + 1;
    }
    assert t.missingSymbols[..i] == t.missingSymbols;

    var j := 0;
    assert missingSymbols.keys[..0] == [];
    while j < |missingSymbols.keys|
      invariant 0 <= j <= |missingSymbols.keys|
      invariant t.transformed == ApplyAll(old(t.transformed), missingSymbols.keys[..j], missingSymbols.values)
    {
      var symbol := missingSymbols.keys[j];
      ApplyAllStep(old(t.transformed), missingSymbols.keys, missingSymbols.values, j);
      t.transformed := ReplaceAll(t.transformed, Token(symbol), missingSymbols.values[symbol]);
      j := j + 1;
    }
    assert missingSymbols.keys[..j] == missingSymbols.keys;
    r := t;
  }

  /** `execute`: passes every entry of the collection through
      `resolveMissingSymbols`, writing each result back at its position, and
      returns the same collection. */
  method Execute(collection: Collection) returns (r: Collection)
    requires collection.Valid()
    modifies collection, collection.types
    ensures r == collection && collection.Valid()
    ensures collection.types == old(collection.types)
    ensures forall k :: 0 <= k < |collection.types| ==>
      collection.types[k].transformed ==
        ResolvedText(old(collection.types[k].transformed), collection.types, collection.types[k].missingSymbols)
  {
    var i := 0;
    while i < |collection.types|
      invariant 0 <= i <= |collection.types|
      invariant collection.types == old(collection.types)
      invariant forall k :: 0 <= k < i ==>
        collection.types[k].transformed ==
          ResolvedText(old(collection.types[k].transformed), collection.types, collection.types[k].missingSymbols)
      invariant forall k :: i <= k < |collection.types| ==>
        collection.types[k].transformed == old(collection.types[k].transformed)
    {
      var t := ResolveMissingSymbols(collection, collection.types[i]);
      collection.types := collection.types[i := t];
      i := i + 1;
    }
    r := collection;
  }

  /** The first index of `s` in `xs` (or `|xs|` when it is absent). */
  function FirstIndex(xs: seq<Symbol>, s: Symbol): (n: nat)
    ensures n <= |xs|
    ensures n < |xs| <==> s in xs
    ensures n < |xs| ==> xs[n] == s && s !in xs[..n]
    decreases |xs|
  {
    if xs == [] then 0
    else if xs[0] == s then 0
    else 1 + FirstIndex(xs[1..], s)
  }

  lemma {:induction false} FirstIndexAppend(xs: seq<Symbol>, y: Symbol, s: Symbol)
    requires s in xs
    ensures FirstIndex(xs + [y], s) == FirstIndex(xs, s)
    decreases |xs|
  {
    if xs[0] != s {
      assert (xs + [y])[1..] == xs[1..] + [y];
      FirstIndexAppend(xs[1..], y, s);
    }
  }

  /** The keys of the map are exactly the missing symbols that are unknown
      or found non-inline; an unknown symbol maps to `any`, a found
      non-inline one to that entry's name. */
  lemma {:induction false} ReplacementMapEntries(types: seq<Type>, missing: seq<Symbol>)
    ensures var m := ReplacementMap(types, missing);
      (forall s :: s in m.values <==> s in missing && Replaced(types, s)) &&
      (forall s :: s in m.values ==> Some(m.values[s]) == Replacement(FindIn(types, s)))
    decreases |missing|
  {
    if missing != [] {
      var init := missing[..|missing| - 1];
      assert missing == init + [missing[|missing| - 1]];
      ReplacementMapEntries(types, init);
    }
  }

  /** `keys` lists symbols in the order of their first appearance in
      `xs`. */
  ghost predicate InFirstAppearanceOrder(xs: seq<Symbol>, keys: seq<Symbol>) {
    forall i, j :: 0 <= i < j < |keys| ==> FirstIndex(xs, keys[i]) < FirstIndex(xs, keys[j])
  }

  lemma OrderAfterAppend(xs: seq<Symbol>, s: Symbol, keys0: seq<Symbol>, keys: seq<Symbol>)
    requires forall k :: k in keys0 ==> k in xs
    requires InFirstAppearanceOrder(xs, keys0)
    requires keys == keys0 || (s !in xs && keys == keys0 + [s])
    ensures InFirstAppearanceOrder(xs + [s], keys)
  {
    forall k | k in keys0
      ensures FirstIndex(xs + [s], k) == FirstIndex(xs, k) < |xs|
    {
      FirstIndexAppend(xs, s, k);
    }
    if keys != keys0 {
      assert FirstIndex(xs + [s], s) == |xs| by {
        assert (xs + [s])[..|xs|] == xs;
      }
      forall i, j | 0 <= i < j < |keys|
        ensures FirstIndex(xs + [s], keys[i]) < FirstIndex(xs + [s], keys[j])
      {
        assert keys[i] == keys0[i];
        if j < |keys0| {
          assert keys[j] == keys0[j];
        }
      }
    }
  }

  /** The keys are listed in the order in which the symbols first appear
      among the missing symbols; a repeated symbol keeps its first place. */
  lemma {:induction false} ReplacementMapOrder(types: seq<Type>, missing: seq<Symbol>)
    ensures InFirstAppearanceOrder(missing, ReplacementMap(types, missing).keys)
    decreases |missing|
  {
    if missing != [] {
      var init := missing[..|missing| - 1];
      var s := missing[|missing| - 1];
      assert missing == init + [s];
      ReplacementMapOrder(types, init);
      ReplacementMapEntries(types, init);
      var m0 := ReplacementMap(types, init);
      assert forall k :: k in m0.keys ==> k in m0.values;
      OrderAfterAppend(init, s, m0.keys, ReplacementMap(types, missing).keys);
    }
  }

  /** An unknown missing symbol maps to `any`. */
  lemma {:induction false} UnknownSymbolMapsToAny(types: seq<Type>, missing: seq<Symbol>, s: Symbol)
    requires s in missing && FindIn(types, s).None?
    ensures var m := ReplacementMap(types, missing); s in m.keys && m.values[s] == "any"
  {
    ReplacementMapEntries(types, missing);
  }

  /** A missing symbol found non-inline maps to the found entry's name. */
  lemma {:induction false} NonInlineSymbolMapsToName(types: seq<Type>, missing: seq<Symbol>, s: Symbol, found: Type)
    requires s in missing && FindIn(types, s) == Some(found) && !found.isInline
    ensures var m := ReplacementMap(types, missing); s in m.keys && m.values[s] == found.typescriptName
  {
    ReplacementMapEntries(types, missing);
  }

  /** A missing symbol found inline gets no map entry. */
  lemma {:induction false} InlineSymbolHasNoEntry(types: seq<Type>, missing: seq<Symbol>, s: Symbol)
    requires FindIn(types, s).Some? && FindIn(types, s).value.isInline
    ensures s !in ReplacementMap(types, missing).keys
  {
    ReplacementMapEntries(types, missing);
  }

  /** When no missing symbol has a replacement (in particular when there
      are no missing symbols), the text is left as it was. */
  lemma NothingReplacedLeavesTextUnchanged(text: string, types: seq<Type>, missing: seq<Symbol>)
    requires forall s :: s in missing ==> !Replaced(types, s)
    ensures ResolvedText(text, types, missing) == text
  {
    ReplacementMapEntries(types, missing);
  }

  /** The text after the first `j` replacements of the step. */
  function AppliedPrefix(text: string, m: OrderedMap, j: nat): string
    requires m.Valid() && j <= |m.keys|
  {
    ApplyAll(text, m.keys[..j], m.values)
  }

  /** The step at which a missing symbol is replaced: from the text at that
      point, every match of its placeholder found by the left-to-right scan
      becomes the replacement (the pieces between matches are kept, contain
      no placeholder for it, and the inserted text is not scanned again). */
  lemma ReplacedAtItsStep(text: string, types: seq<Type>, missing: seq<Symbol>, s: Symbol, v: string)
    returns (j: nat)
    requires s in missing && Replacement(FindIn(types, s)) == Some(v)
    ensures var m := ReplacementMap(types, missing);
      j < |m.keys| && m.keys[j] == s &&
      var before := AppliedPrefix(text, m, j);
      AppliedPrefix(text, m, j + 1) == Join(Split(before, Token(s)), v) &&
      Join(Split(before, Token(s)), Token(s)) == before &&
      forall k :: 0 <= k < |Split(before, Token(s))| ==> !Occurs(Token(s), Split(before, Token(s))[k])
  {
    ReplacementMapEntries(types, missing);
    var m := ReplacementMap(types, missing);
    j := FirstIndex(m.keys, s);
    var before := AppliedPrefix(text, m, j);
    ApplyAllStep(text, m.keys, m.values, j);
    ReplaceAllIsJoinOfSplit(before, Token(s), v);
    SplitJoinRoundTrip(before, Token(s));
    SplitPiecesAreFree(before, Token(s));
  }

  /** The step for a single missing symbol that gets a replacement is one
      `str_replace`. */
  lemma ResolvedTextOne(text: string, types: seq<Type>, s: Symbol, v: string)
    requires Replacement(FindIn(types, s)) == Some(v)
    ensures ResolvedText(text, types, [s]) == ReplaceAll(text, Token(s), v)
  {
    ReplacementMapOne(types, s, v);
    var m := ReplacementMap(types, [s]);
    ApplyAllOne(text, s, m.values);
  }

  /** The step for two distinct missing symbols that both get a replacement
      is two `str_replace` calls, the second on the result of the first. */
  lemma ResolvedTextTwo(text: string, types: seq<Type>, s1: Symbol, v1: string, s2: Symbol, v2: string)
    requires s1 != s2
    requires Replacement(FindIn(types, s1)) == Some(v1)
    requires Replacement(FindIn(types, s2)) == Some(v2)
    ensures ResolvedText(text, types, [s1, s2]) == ReplaceAll(ReplaceAll(text, Token(s1), v1), Token(s2), v2)
  {
    ReplacementMapTwo(types, s1, v1, s2, v2);
    var m := ReplacementMap(types, [s1, s2]);
    ApplyAllTwo(text, s1, s2, m.values);
  }

  lemma ReplacementMapOne(types: seq<Type>, s: Symbol, v: string)
    requires Replacement(FindIn(types, s)) == Some(v)
    ensures ReplacementMap(types, [s]).keys == [s]
    ensures ReplacementMap(types, [s]).values[s] == v
  {
    assert [s][..0] == [];
    assert ReplacementMap(types, [s][..0]) == Empty;
  }

  lemma ReplacementMapTwo(types: seq<Type>, s1: Symbol, v1: string, s2: Symbol, v2: string)
    requires s1 != s2
    requires Replacement(FindIn(types, s1)) == Some(v1)
    requires Replacement(FindIn(types, s2)) == Some(v2)
    ensures ReplacementMap(types, [s1, s2]).keys == [s1, s2]
    ensures ReplacementMap(types, [s1, s2]).values[s1] == v1
    ensures ReplacementMap(types, [s1, s2]).values[s2] == v2
  {
    ReplacementMapOne(types, s1, v1);
    assert [s1, s2][..1] == [s1];
  }

  lemma ApplyAllOne(text: string, k: Symbol, values: map<Symbol, string>)
    requires k in values
    ensures ApplyAll(text, [k], values) == ReplaceAll(text, Token(k), values[k])
  {
    assert [k][..0] == [];
  }

  lemma ApplyAllTwo(text: string, k1: Symbol, k2: Symbol, values: map<Symbol, string>)
    requires k1 in values && k2 in values
    ensures ApplyAll(text, [k1, k2], values) == ReplaceAll(ReplaceAll(text, Token(k1), values[k1]), Token(k2), values[k2])
  {
    ApplyAllOne(text, k1, values);
    assert [k1, k2][..1] == [k1];
  }

  /** The substitution is not recursive within one `str_replace`, but the
      map entries are applied one after another: when an entry's value (a
      TypeScript name) itself contains the placeholder of a later key, that
      placeholder is rewritten by the later entry. Here `s1` is found with
      the name `{%<s2>%}` and `s2` is unknown, so `{%<s1>%}` becomes `any`. */
  lemma LaterEntryRewritesEarlierReplacement(types: seq<Type>, s1: Symbol, s2: Symbol)
    requires FindIn(types, s1).Some? && !FindIn(types, s1).value.isInline
    requires FindIn(types, s1).value.typescriptName == Token(s2)
    requires FindIn(types, s2).None?
    ensures ResolvedText(Token(s1), types, [s1, s2]) == "any"
  {
    ResolvedTextTwo(Token(s1), types, s1, Token(s2), s2, "any");
    ReplaceWholeText(Token(s1), Token(s2));
    ReplaceWholeText(Token(s2), "any");
  }

  /** The placeholder of `h%}{%s` is the placeholder of `h` followed by
      that of `s`. */
  lemma TokenOfJoined(h: Symbol, s: Symbol)
    ensures Token(h + "%}{%" + s) == Token(h) + Token(s)
  {
    assert "{%" + (h + "%}{%" + s) + "%}" == ("{%" + h + "%}") + ("{%" + s + "%}");
  }

  /** An inline symbol never gets an entry of its own, yet its placeholder
      is not safe from other entries: the placeholder of the unknown symbol
      `h%}{%s` is `{%h%}{%s%}`, which ends with the placeholder of the
      inline `s`, and the step turns the whole text into `any`. */
  lemma InlinePlaceholderConsumedByOtherEntry(types: seq<Type>, h: Symbol, s: Symbol)
    requires FindIn(types, s).Some? && FindIn(types, s).value.isInline
    requires FindIn(types, h + "%}{%" + s).None?
    ensures Occurs(Token(s), Token(h + "%}{%" + s))
    ensures ResolvedText(Token(h + "%}{%" + s), types, [h + "%}{%" + s]) == "any"
  {
    var x := h + "%}{%" + s;
    TokenOfJoined(h, s);
    OccursAfter(Token(h), Token(s));
    ResolvedTextOne(Token(x), types, x, "any");
    ReplaceWholeText(Token(x), "any");
  }

  /** A second way matches overlap: the placeholder `{%a{%}` of the
      unknown symbol `a{` ends inside the placeholder `{%}%}` of the inline
      symbol `}`, so the scan consumes the start of the inline placeholder
      and leaves only its last two characters. */
  lemma InlinePlaceholderOverlappedAtBrace(types: seq<Type>, a: Symbol)
    requires FindIn(types, "}").Some? && FindIn(types, "}").value.isInline
    requires FindIn(types, a + "{").None?
    ensures Occurs(Token("}"), Token(a + "{") + "%}")
    ensures ResolvedText(Token(a + "{") + "%}", types, [a + "{"]) == "any%}"
  {
    var x := a + "{";
    TokenEndingInBrace(a);
    OccursAfter("{%" + a, Token("}"));
    ResolvedTextOne(Token(x) + "%}", types, x, "any");
    ReplaceAllAtStart(Token(x), "%}", "any");
    NoTokenInShortText(x, "%}");
    NoMatchUnchanged("%}", Token(x), "any");
  }

  /** `{%a{%}` followed by `%}` is `{%a` followed by the placeholder of
      `}`. */
  lemma TokenEndingInBrace(a: Symbol)
    ensures Token(a + "{") + "%}" == ("{%" + a) + Token("}")
  {
    assert "{%" + (a + "{") + "%}" + "%}" == ("{%" + a) + ("{%" + "}" + "%}");
  }

  /** A text shorter than four characters holds no placeholder. */
  lemma NoTokenInShortText(s: Symbol, t: string)
    requires |t| < 4
    ensures !Occurs(Token(s), t)
  {
    if Occurs(Token(s), t) {
      OccursIsLongEnough(Token(s), t);
    }
  }
}
