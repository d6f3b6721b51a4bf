/** The Enter handler of the omnibox keyword (`onInputEntered`): the decision
    of which URL to open for the text the user confirmed. Opening the tab is
    left to the browser and is not part of this model. */
module Resolver {
  import opened Text
  import opened UrlNormalizer
  import opened AliasMap
  import opened Wrappers
  import UriEncoding

  const SearchPrefix := "https://www.google.com/search?q="

  /** `base.replace(/\/+$/, "") + "/" + tail.replace(/^\/+/, "")`. The
      result starts with the base up to its trailing slashes and one slash,
      and composing adds at most that one slash. */
  function Compose(base: string, tail: string): (r: string)
    ensures StripTrailingSlashes(base) + "/" <= r
    ensures |r| <= |base| + 1 + |tail|
  {
    var b := StripTrailingSlashes(base);
    assert b + "/" <= b + "/" + StripLeadingSlashes(tail);
    b + "/" + StripLeadingSlashes(tail)
  }

  /** What `/\/+$/` removes from the base is a run of slashes. */
  lemma StripTrailingRemainder(s: string)
    ensures var n := |StripTrailingSlashes(s)|;
      s[..n] == StripTrailingSlashes(s) && AllSlashes(s[n..])
  {
    var n := |StripTrailingSlashes(s)|;
    assert AllSlashes(s[n..]) by {
      forall k | 0 <= k < |s| - n ensures s[n..][k] == '/' {
        assert s[n..][k] == s[n + k];
      }
    }
  }

  /** What `/^\/+/` removes from the tail is a run of slashes. */
  lemma StripLeadingRemainder(s: string)
    ensures var m := |s| - |StripLeadingSlashes(s)|;
      s[m..] == StripLeadingSlashes(s) && AllSlashes(s[..m])
  {
    var m := |s| - |StripLeadingSlashes(s)|;
    assert AllSlashes(s[..m]) by {
      forall k | 0 <= k < m ensures s[..m][k] == '/' {
      }
    }
  }

  /** The base up to its trailing slashes, then one slash, then anything:
      the facts behind `ComposeKeepsBase`, for any tail. */
  lemma BaseThenSlash(base: string, t: string, r: string)
    requires r == StripTrailingSlashes(base) + ("/" + t)
    ensures var n := |StripTrailingSlashes(base)|;
      && n < |r| && r[..n] == base[..n] && AllSlashes(base[n..])
      && r[n] == '/' && (n == 0 || r[n - 1] != '/')
  {
    var b := StripTrailingSlashes(base);
    var n := |b|;
    assert r[..n] == b && r[n] == '/' && (n == 0 || r[n - 1] == b[n - 1]);
    StripTrailingRemainder(base);
  }

  /** The composed URL starts with the base up to its run of trailing
      slashes, followed by exactly one slash. */
  lemma ComposeKeepsBase(base: string, tail: string)
    ensures var r, n := Compose(base, tail), |StripTrailingSlashes(base)|;
      && n < |r| && r[..n] == base[..n] && AllSlashes(base[n..])
      && r[n] == '/' && (n == 0 || r[n - 1] != '/')
  {
    BaseThenSlash(base, StripLeadingSlashes(tail), Compose(base, tail));
  }

  /** After that one slash comes the tail without its run of leading
      slashes, and no further slash at the join. */
  lemma ComposeKeepsTail(base: string, tail: string)
    ensures var r, n := Compose(base, tail), |StripTrailingSlashes(base)|;
      var m := |tail| - (|r| - n - 1);
      && 0 <= m && r[n + 1..] == tail[m..] && AllSlashes(tail[..m])
      && (n + 1 == |r| || r[n + 1] != '/')
  {
    SlashThenTail(StripTrailingSlashes(base), tail, Compose(base, tail));
  }

  /** Any base, one slash, then the tail minus its leading slashes: the
      facts behind `ComposeKeepsTail`. */
  lemma SlashThenTail(b: string, tail: string, r: string)
    requires r == b + "/" + StripLeadingSlashes(tail)
    ensures var n := |b|;
      var m := |tail| - (|r| - n - 1);
      && 0 <= m && r[n + 1..] == tail[m..] && AllSlashes(tail[..m])
      && (n + 1 == |r| || r[n + 1] != '/')
  {
    var t, p := StripLeadingSlashes(tail), b + "/";
    StripLeadingRemainder(tail);
    assert |p| == |b| + 1 && r == p + t;
    assert r[|p|..] == t;
    assert |p| == |r| || r[|p|] == t[0];
  }

  /** Exactly one slash joins base and tail, however many slashes each had
      at the join. */
  lemma ComposeOneSlash(b: string, x: string, y: string, t: string)
    requires b == [] || b[|b| - 1] != '/'
    requires t == [] || t[0] != '/'
    requires AllSlashes(x) && AllSlashes(y)
    ensures Compose(b + x, y + t) == b + "/" + t
  {
    StripTrailingOf(b, x);
    StripLeadingOf(y, t);
  }

  /** The URL the Enter handler opens for `text`, given the stored map. When
      the first token is a found alias, the target starts with its URL up to
      the URL's trailing slashes; otherwise it is the trimmed text, the
      trimmed text behind `https://`, or a search. */
  function Target(text: string, m: seq<Shortcut>): (r: string)
    ensures Found(m, FirstToken(text)) ==> StripTrailingSlashes(Lookup(m, FirstToken(text)).value) <= r
    ensures !Found(m, FirstToken(text)) ==>
      r == Trim(text) || r == HttpsPrefix + Trim(text) || SearchPrefix <= r
  {
    var trimmed := Trim(text);
    var tokens := Split(trimmed);
    var alias, rest := tokens[0], tokens[1..];
    var base := Lookup(m, alias);
    if base.Some? && base.value != "" then
      if |rest| > 0 then Compose(base.value, Join(rest, " ")) else base.value
    else if HasWordScheme(trimmed) || LooksLikeDomain(trimmed) then
      NormalizeToUrl(trimmed)
    else
      var q := UriEncoding.Encode(trimmed);
      assert SearchPrefix <= SearchPrefix + q;
      SearchPrefix + q
  }

  /** The first whitespace-separated token of the trimmed input, as typed. */
  function FirstToken(text: string): string {
    Split(Trim(text))[0]
  }

  /** An alias typed on its own opens its stored URL verbatim. */
  lemma {:induction false} AliasAloneOpensUrl(text: string, m: seq<Shortcut>)
    requires NoSpace(Trim(text)) && Found(m, Trim(text))
    ensures Target(text, m) == Lookup(m, Trim(text)).value
  {
    SplitWithoutSpace(Trim(text));
  }

  /** An alias followed by tokens opens the composition of its URL with the
      tokens joined by single spaces, whatever runs of white space separated
      them in the typed text. */
  lemma {:induction false} AliasWithTailOpensComposed(text: string, m: seq<Shortcut>, alias: string, rest: seq<string>, seps: seq<string>)
    requires |rest| >= 1 && |seps| == |rest|
    requires alias != [] && NoSpace(alias)
    requires forall k :: 0 <= k < |rest| ==> rest[k] != [] && NoSpace(rest[k])
    requires forall k :: 0 <= k < |seps| ==> seps[k] != [] && AllSpace(seps[k])
    requires Trim(text) == Interleave([alias] + rest, seps)
    requires Found(m, alias)
    ensures Target(text, m) == Compose(Lookup(m, alias).value, Join(rest, " "))
  {
    var tokens := [alias] + rest;
    assert forall k :: 0 <= k < |tokens| ==> tokens[k] != [] && NoSpace(tokens[k]) by {
      forall k | 0 <= k < |tokens| ensures tokens[k] != [] && NoSpace(tokens[k]) {
        if k > 0 {
          assert tokens[k] == rest[k - 1];
        }
      }
    }
    SplitInterleave(tokens, seps);
    assert tokens[1..] == rest;
  }

  /** A confirmed text whose first token is no alias, and which looks like a
      URL, is opened as `normalizeToUrl` makes it: as typed when it has a
      letters-only scheme or is not domain-like, otherwise behind
      `https://`. */
  lemma {:induction false} UrlLikeOpensNormalized(text: string, m: seq<Shortcut>)
    requires !Found(m, FirstToken(text))
    requires HasWordScheme(Trim(text)) || LooksLikeDomain(Trim(text))
    ensures var t := Trim(text);
      Target(text, m) == if !HasLetterScheme(t) && LooksLikeDomain(t) then HttpsPrefix + t else t
  {
  }

  /** Anything else is searched for, and the query in the search URL decodes
      back to exactly the trimmed text. */
  lemma {:induction false} OtherTextIsSearched(text: string, m: seq<Shortcut>)
    requires !Found(m, FirstToken(text))
    requires !HasWordScheme(Trim(text)) && !LooksLikeDomain(Trim(text))
    ensures var r := Target(text, m);
      && r == SearchPrefix + UriEncoding.Encode(Trim(text))
      && UriEncoding.Decode(r[|SearchPrefix|..]) == Some(Trim(text))
  {
    var r := Target(text, m);
    assert r[|SearchPrefix|..] == UriEncoding.Encode(Trim(text));
    UriEncoding.DecodeEncode(Trim(text));
  }

  /** Blank input is a search for the empty string, unless the map has an
      entry for the empty alias. */
  lemma {:induction false} BlankInputSearchesNothing(text: string, m: seq<Shortcut>)
    requires Trim(text) == ""
    requires !Found(m, "")
    ensures Target(text, m) == SearchPrefix
  {
    assert Split("") == [""];
    assert !LooksLikeDomain("") && !HasWordScheme("");
  }

  /** The composition of the source's comment: `gh topics/chrome` with the
      built-in `gh` opens `https://github.com/topics/chrome`. */
  lemma GithubTopicsExample()
    ensures Compose("https://github.com", "topics/chrome") == "https://github.com/topics/chrome"
  {
    var b, t := "https://github.com", "topics/chrome";
    assert StripTrailingSlashes(b) == b by {
      assert b[|b| - 1] == 'm';
    }
    assert StripLeadingSlashes(t) == t by {
      assert t[0] == 't';
    }
  }

  /** The Enter lookup is case-sensitive: a first token with an upper-case
      letter is no alias of a map whose aliases are all lower-case, as the
      built-in ones are; such input falls through to the URL test or the
      search. */
  lemma UpperCaseTokenIsNoAlias(text: string, m: seq<Shortcut>)
    requires forall e :: e in m ==> NoUpper(e.alias)
    requires !NoUpper(FirstToken(text))
    ensures !Found(m, FirstToken(text))
  {
  }

  lemma BuiltinsAreLowerCase()
    ensures forall e :: e in Builtins ==> NoUpper(e.alias)
  {
  }
}
