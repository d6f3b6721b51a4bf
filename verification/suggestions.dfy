/** The suggestion list of the omnibox keyword (`onInputChanged`): every stored
    alias whose key or URL contains the typed text, in map order, after a
    "composed" entry when the first token is an alias followed by more text,
    at most six in all. The two background scripts differ only in the
    `content` of the alias entries, which `ContentStyle` selects. */
module Suggestions {
  import opened Text
  import opened AliasMap
  import opened Resolver
  import opened Wrappers

  datatype Suggestion = Suggestion(content: string, description: string)

  /** `BareKey`: the content is the alias (background.js). `KeyWithNonce`:
      the content is `$`, the alias, a space and a random base-36 string
      (js/background.js); `nonce(i)` is the string drawn for the entry at
      position `i` of the map. */
  datatype ContentStyle = BareKey | KeyWithNonce(nonce: nat -> string)

  const MaxSuggestions := 6
  const LinkMark := "\U{1F517} "
  const DashMark := " \U{2014} "
  const ArrowMark := "\U{27A1}\U{FE0F} "
  const ToMark := " \U{2192} "

  /** `text.trim().toLowerCase()` */
  function Query(text: string): (q: string)
    ensures |q| <= |text| && NoUpper(q)
  {
    Lower(Trim(text))
  }

  /** The filter of the alias entries. The key is compared as stored, the
      URL lower-cased. */
  predicate Matches(q: string, e: Shortcut)
    ensures Matches(q, e) ==> |q| <= |e.alias| || |q| <= |e.url|
  {
    q == "" || Contains(e.alias, q) || Contains(Lower(e.url), q)
  }

  /** What an alias entry shows: `🔗 key — url`. */
  function Describe(e: Shortcut): (r: string)
    ensures LinkMark + e.alias <= r
    ensures |e.url| <= |r| && r[|r| - |e.url|..] == e.url
  {
    LinkMark + e.alias + DashMark + e.url
  }

  /** One alias entry, for the pair `e` at position `i` of the map. */
  function AliasSuggestion(style: ContentStyle, i: nat, e: Shortcut): (r: Suggestion)
    ensures r.description == Describe(e)
    ensures style.BareKey? ==> r.content == e.alias
    ensures style.KeyWithNonce? ==> "$" + e.alias + " " <= r.content
  {
    match style
    case BareKey => Suggestion(e.alias, Describe(e))
    case KeyWithNonce(nonce) => Suggestion("$" + e.alias + " " + nonce(i), Describe(e))
  }

  /** The array the `forEach` loop has built after the first `n` entries. */
  function AliasSuggestions(style: ContentStyle, m: seq<Shortcut>, q: string, n: nat): (r: seq<Suggestion>)
    requires n <= |m|
    ensures |r| <= n
  {
    if n == 0 then []
    else
      AliasSuggestions(style, m, q, n - 1)
      + (if Matches(q, m[n - 1]) then [AliasSuggestion(style, n - 1, m[n - 1])] else [])
  }

  /** The composed entry for query `q`, when its first token is an alias
      with a non-empty URL and more tokens follow. */
  function ComposedSuggestion(m: seq<Shortcut>, q: string): (o: Option<Suggestion>)
    ensures o.Some? <==> Found(m, Split(q)[0]) && |Split(q)| > 1
  {
    var tokens := Split(q);
    var alias, rest := tokens[0], tokens[1..];
    var base := Lookup(m, alias);
    if base.Some? && base.value != "" && |rest| > 0 then
      var tail := Join(rest, " ");
      Some(Suggestion(alias + " " + tail, ArrowMark + alias + ToMark + Compose(base.value, tail)))
    else None
  }

  /** The list handed to `suggest` for the query `q`. */
  function SuggestionsFor(style: ContentStyle, q: string, m: seq<Shortcut>): (r: seq<Suggestion>)
    ensures |r| <= MaxSuggestions
  {
    var aliases := AliasSuggestions(style, m, q, |m|);
    var all := match ComposedSuggestion(m, q)
      case Some(c) => [c] + aliases
      case None => aliases;
    if |all| <= MaxSuggestions then all else all[..MaxSuggestions]
  }

  /** The list handed to `suggest` for the typed text. */
  function Suggestions(style: ContentStyle, text: string, m: seq<Shortcut>): (r: seq<Suggestion>)
    ensures |r| <= MaxSuggestions
  {
    SuggestionsFor(style, Query(text), m)
  }

  /** The `onInputChanged` handler: a loop that pushes the matching entries,
      an `unshift` of the composed entry, and `slice(0, 6)`. */
  method BuildSuggestions(style: ContentStyle, text: string, m: seq<Shortcut>) returns (result: seq<Suggestion>)
    ensures result == Suggestions(style, text, m)
  {
    var q := Lower(Trim(text));
    var suggestions := CollectMatches(style, q, m);
    // The source splits the query before the loop; the loop does not use
    // the tokens, so they are computed here.
    var tokens := Split(q);
    var alias, rest := tokens[0], tokens[1..];
    var base := Lookup(m, alias);
    if base.Some? && base.value != "" && |rest| > 0 {
      var tail := Join(rest, " ");
      var composed := Compose(base.value, tail);
      suggestions := [Suggestion(alias + " " + tail, ArrowMark + alias + ToMark + composed)] + suggestions;
      assert ComposedSuggestion(m, q) == Some(suggestions[0]) && suggestions[1..] == AliasSuggestions(style, m, q, |m|);
    } else {
      assert ComposedSuggestion(m, q) == None;
    }
    result := if |suggestions| <= MaxSuggestions then suggestions else suggestions[..MaxSuggestions];
    assert result == SuggestionsFor(style, q, m);
  }

  /** The `forEach` loop: one entry per matching pair, in map order. */
  method CollectMatches(style: ContentStyle, q: string, m: seq<Shortcut>) returns (suggestions: seq<Suggestion>)
    ensures suggestions == AliasSuggestions(style, m, q, |m|)
  {
    suggestions := [];
    var i := 0;
    while i < |m|
      invariant i <= |m|
      invariant suggestions == AliasSuggestions(style, m, q, i)
    {
      var e := m[i];
      if q == "" || Contains(e.alias, q) || Contains(Lower(e.url), q) {
        var content := match style
          case BareKey => e.alias
          case KeyWithNonce(nonce) => "$" + e.alias + " " + nonce(i);
        suggestions := suggestions + [Suggestion(content, LinkMark + e.alias + DashMark + e.url)];
      }
      i := i + 1;
    }
  }

  /** The entries the filter keeps, in map order: the reference against
      which the built list is checked. */
  function MatchingEntries(m: seq<Shortcut>, q: string): seq<Shortcut> {
    if m == [] then []
    else (if Matches(q, m[0]) then [m[0]] else []) + MatchingEntries(m[1..], q)
  }

  lemma {:induction false} MatchingEntriesAppend(a: seq<Shortcut>, b: seq<Shortcut>, q: string)
    ensures MatchingEntries(a + b, q) == MatchingEntries(a, q) + MatchingEntries(b, q)
  {
    if a == [] {
      assert a + b == b;
    } else {
      var h := if Matches(q, a[0]) then [a[0]] else [];
      assert MatchingEntries(a + b, q) == h + MatchingEntries(a[1..] + b, q) by {
        assert (a + b)[0] == a[0] && (a + b)[1..] == a[1..] + b;
      }
      MatchingEntriesAppend(a[1..], b, q);
      assert MatchingEntries(a, q) == h + MatchingEntries(a[1..], q);
      SeqAssoc(h, MatchingEntries(a[1..], q), MatchingEntries(b, q));
    }
  }

  /** The alias entries are exactly the matching pairs in map order: one
      per pair, showing its key and URL, with the bare key as content in
      background.js and `$key ` and a random string in js/background.js. */
  lemma {:induction false} AliasEntriesAreMatches(style: ContentStyle, m: seq<Shortcut>, q: string, n: nat)
    requires n <= |m|
    ensures var r, f := AliasSuggestions(style, m, q, n), MatchingEntries(m[..n], q);
      && |r| == |f|
      && forall k :: 0 <= k < |r| ==>
        && r[k].description == Describe(f[k])
        && (style.BareKey? ==> r[k].content == f[k].alias)
        && (style.KeyWithNonce? ==> "$" + f[k].alias + " " <= r[k].content)
  {
    if n > 0 {
      AliasEntriesAreMatches(style, m, q, n - 1);
      assert m[..n] == m[..n - 1] + [m[n - 1]];
      MatchingEntriesAppend(m[..n - 1], [m[n - 1]], q);
      assert MatchingEntries([m[n - 1]], q) == if Matches(q, m[n - 1]) then [m[n - 1]] else [] by {
        assert [m[n - 1]][1..] == [];
      }
    }
  }

  /** How long the list is: the matching pairs plus the composed entry,
      capped at six. */
  lemma {:induction false} SuggestionCount(style: ContentStyle, text: string, m: seq<Shortcut>)
    ensures var q := Query(text);
      var n := |MatchingEntries(m, q)| + (if ComposedSuggestion(m, q).Some? then 1 else 0);
      |Suggestions(style, text, m)| == if n <= MaxSuggestions then n else MaxSuggestions
  {
    AliasEntriesAreMatches(style, m, Query(text), |m|);
    assert m[..|m|] == m;
  }

  /** When the lower-cased first token is an alias and more text follows,
      the first entry is the composed one: its content is the alias and the
      tail, its description shows the composed URL, and the alias entries
      follow it. */
  lemma {:induction false} ComposedComesFirst(style: ContentStyle, text: string, m: seq<Shortcut>)
    requires var tokens := Split(Query(text)); Found(m, tokens[0]) && |tokens| > 1
    ensures var tokens := Split(Query(text));
      var alias, tail := tokens[0], Join(tokens[1..], " ");
      var r := Suggestions(style, text, m);
      && |r| >= 1
      && r[0].content == alias + " " + tail
      && Contains(r[0].description, Compose(Lookup(m, alias).value, tail))
      && r[1..] <= AliasSuggestions(style, m, Query(text), |m|)
  {
    var q := Query(text);
    var tokens := Split(q);
    var alias, tail := tokens[0], Join(tokens[1..], " ");
    var url := Compose(Lookup(m, alias).value, tail);
    var c := Suggestion(alias + " " + tail, ArrowMark + alias + ToMark + url);
    assert ComposedSuggestion(m, q) == Some(c);
    ContainsSuffix(ArrowMark + alias + ToMark, url);
    ComposedIsHead(style, q, m);
  }

  /** Without a composed entry, the list is the alias entries, the first
      six of them when there are more. */
  lemma NoComposedListsAliases(style: ContentStyle, q: string, m: seq<Shortcut>)
    requires ComposedSuggestion(m, q).None?
    ensures var r, a := SuggestionsFor(style, q, m), AliasSuggestions(style, m, q, |m|);
      r <= a && |r| == (if |a| <= MaxSuggestions then |a| else MaxSuggestions)
  {
  }

  lemma ComposedIsHead(style: ContentStyle, q: string, m: seq<Shortcut>)
    requires ComposedSuggestion(m, q).Some?
    ensures var r := SuggestionsFor(style, q, m);
      |r| >= 1 && r[0] == ComposedSuggestion(m, q).value && r[1..] <= AliasSuggestions(style, m, q, |m|)
  {
    var c, a := ComposedSuggestion(m, q).value, AliasSuggestions(style, m, q, |m|);
    CappedHead(c, a, MaxSuggestions);
    var all := [c] + a;
    assert SuggestionsFor(style, q, m) == if |all| <= MaxSuggestions then all else all[..MaxSuggestions];
  }

  /** Capping a list that starts with `c` keeps `c` first and a prefix of
      the rest behind it. */
  lemma CappedHead<T>(c: T, a: seq<T>, cap: nat)
    requires cap >= 1
    ensures var all := [c] + a;
      var r := if |all| <= cap then all else all[..cap];
      |r| >= 1 && r[0] == c && r[1..] <= a
  {
    var all := [c] + a;
    if |all| > cap {
      assert all[..cap][1..] == a[..cap - 1];
    } else {
      assert all[1..] == a;
    }
  }

  /** The composed entry is written in lower case, like the query it comes
      from, whatever the case of the typed text. */
  lemma {:induction false} ComposedIsLowerCase(m: seq<Shortcut>, text: string)
    requires ComposedSuggestion(m, Query(text)).Some?
    ensures NoUpper(ComposedSuggestion(m, Query(text)).value.content)
  {
    var q := Query(text);
    var tokens := Split(q);
    SplitKeepsNoUpper(q);
    JoinKeepsNoUpper(tokens[1..]);
    var c := tokens[0] + " " + Join(tokens[1..], " ");
    assert ComposedSuggestion(m, q).value.content == c;
    assert NoUpper(c) by {
      assert NoUpper(tokens[0]) && NoUpper(Join(tokens[1..], " "));
    }
  }

  /** The suggestions ignore the case of the typed text (the Enter handler,
      by contrast, looks the first token up as typed). */
  lemma {:induction false} SuggestionsIgnoreCase(style: ContentStyle, text: string, m: seq<Shortcut>)
    ensures Suggestions(style, Lower(text), m) == Suggestions(style, text, m)
  {
    assert Query(Lower(text)) == Query(text) by {
      TrimLower(text);
      assert Lower(Lower(Trim(text))) == Lower(Trim(text));
    }
  }

  /** With nothing typed, the list shows the first six pairs of the map in
      map order, and no composed entry. */
  lemma {:induction false} BlankQueryListsAll(style: ContentStyle, text: string, m: seq<Shortcut>)
    requires Trim(text) == ""
    ensures var r := Suggestions(style, text, m);
      && |r| == (if |m| <= MaxSuggestions then |m| else MaxSuggestions)
      && forall k :: 0 <= k < |r| ==> r[k].description == Describe(m[k])
  {
    assert Query(text) == "";
    assert ComposedSuggestion(m, "") == None by {
      assert Split("") == [""];
    }
    var aliases := AliasSuggestions(style, m, "", |m|);
    assert |aliases| == |m| && forall k :: 0 <= k < |aliases| ==> aliases[k].description == Describe(m[k]) by {
      AllMatchBlank(m);
      AliasEntriesAreMatches(style, m, "", |m|);
      assert m[..|m|] == m;
    }
    assert Suggestions(style, text, m) == if |aliases| <= MaxSuggestions then aliases else aliases[..MaxSuggestions];
  }

  lemma {:induction false} AllMatchBlank(m: seq<Shortcut>)
    ensures MatchingEntries(m, "") == m
  {
    if m != [] {
      AllMatchBlank(m[1..]);
    }
  }
}
