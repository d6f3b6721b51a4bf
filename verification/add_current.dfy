/** The "add current page" popup (js/add_current.js): it fills its fields
    from the active tab, suggests an alias from the tab's hostname, and its
    save button validates the fields and stores one alias. The active tab
    and its hostname, as the browser's URL parser gives it, are parameters;
    the built-in map is one too. */
module AddCurrentPopup {
  import opened Text
  import opened UrlNormalizer
  import opened AliasMap
  import opened Storage
  import opened Wrappers
  import OptionsPage

  /** The part of the active tab the popup reads. */
  datatype Tab = Tab(title: string, url: string)

  /** What a click on the save button does with the two fields. */
  datatype SaveOutcome =
    | Failed(message: string)           // shown in the error line
    | Saved(alias: string, url: string) // the entry written to storage

  const AliasRequired := "Alias is required."
  const UrlRequired := "URL is required."
  const DefaultTitle := "Current Page"

  function BuiltinError(alias: string): string {
    "\"" + alias + "\" is a built-in alias and cannot be changed. Choose another alias."
  }

  /** `normalizeUrl`: kept as typed when it has a letters-only scheme, put
      behind `https://` when it starts like a domain, kept otherwise. It is
      the rule of the background script's `normalizeToUrl`. */
  function NormalizeUrl(input: string): (r: string)
    ensures r == NormalizeToUrl(input)
  {
    if HasLetterScheme(input) then input
    else if LooksLikeDomain(input) then HttpsPrefix + input
    else input
  }

  /** The decision of the save handler for the raw field values, given the
      built-in map: the three errors are checked in this order. */
  function Save(aliasText: string, urlText: string, defaults: seq<Shortcut>): (o: SaveOutcome)
    ensures Trim(aliasText) == "" ==> o == Failed(AliasRequired)
    ensures Trim(aliasText) != "" && Trim(urlText) == "" ==> o == Failed(UrlRequired)
    ensures Trim(aliasText) != "" && Trim(urlText) != "" && Found(defaults, Trim(aliasText)) ==>
      o == Failed(BuiltinError(Trim(aliasText)))
    ensures o.Saved? <==> Trim(aliasText) != "" && Trim(urlText) != "" && !Found(defaults, Trim(aliasText))
    ensures o.Saved? ==> o.alias == Trim(aliasText) && o.url == NormalizeToUrl(Trim(urlText))
  {
    var alias, url := Trim(aliasText), Trim(urlText);
    if alias == "" then Failed(AliasRequired)
    else if url == "" then Failed(UrlRequired)
    else if Found(defaults, alias) then Failed(BuiltinError(alias))
    else Saved(alias, NormalizeUrl(url))
  }

  const WwwPrefix := "www."

  /** `host.replace(/^www\./, "")`: one leading `www.` goes, no more. */
  function StripWww(host: string): (r: string)
    ensures WwwPrefix <= host ==> host == WwwPrefix + r
    ensures !(WwwPrefix <= host) ==> r == host
  {
    if WwwPrefix <= host then host[|WwwPrefix|..] else host
  }

  /** `host.split(".")[0]`: the text before the first dot, or all of it. */
  function FirstLabel(host: string): (r: string)
    ensures r <= host
    ensures forall k :: 0 <= k < |r| ==> r[k] != '.'
    ensures |r| == |host| || host[|r|] == '.'
  {
    if host == [] || host[0] == '.' then [] else [host[0]] + FirstLabel(host[1..])
  }

  /** The alias the popup proposes for a hostname: the first two characters
      of its first label, after a leading `www.`, lower-cased. */
  function SuggestedAlias(host: string): (r: string)
    ensures |r| <= 2 && NoUpper(r)
  {
    var base := FirstLabel(StripWww(host));
    Lower(if |base| < 2 then base else base[..2])
  }

  /** The suggestion is the lower-cased start, at most two characters long,
      of the hostname's first label once `www.` is stripped. */
  lemma SuggestedAliasIsLabelStart(host: string)
    ensures var r, base := SuggestedAlias(host), FirstLabel(StripWww(host));
      && |r| == (if |base| < 2 then |base| else 2)
      && r == Lower(base[..|r|])
      && NoUpper(r)
      && forall k :: 0 <= k < |r| ==> r[k] != '.'
  {
  }

  /** A hostname whose first label, after `www.`, starts with two lower-case
      letters is suggested those two letters. */
  lemma SuggestionOfLowerStart(host: string, rest: string)
    requires StripWww(host) == rest
    requires |rest| >= 2 && 'a' <= rest[0] <= 'z' && 'a' <= rest[1] <= 'z'
    ensures SuggestedAlias(host) == rest[..2]
  {
    var base := FirstLabel(StripWww(host));
    assert |base| >= 2 && base[..2] == rest[..2];
  }

  /** The source's own example: the hostname of the built-in `gh` site
      gives `gi`, not `gh`. */
  lemma GithubSuggestion()
    ensures SuggestedAlias("www.github.com") == "gi"
  {
    var host, rest := "www.github.com", "github.com";
    assert host == WwwPrefix + rest;
    SuggestionOfLowerStart(host, rest);
  }

  class Popup {
    var titleText: string
    var aliasValue: string
    var urlValue: string
    var errorText: string
    var closed: bool
    const store: SyncStore

    /** Opening the popup. `tab` is the active tab, if any; `hostname` is
        the hostname of its URL, absent when there is no tab or its URL does
        not parse, in which case no alias is suggested. */
    constructor (tab: Option<Tab>, hostname: Option<string>, store: SyncStore)
      requires tab.None? ==> hostname.None?
      ensures titleText == (if tab.Some? && tab.value.title != "" then tab.value.title else DefaultTitle)
      ensures urlValue == (if tab.Some? then tab.value.url else "")
      ensures aliasValue == (if hostname.Some? then SuggestedAlias(hostname.value) else "")
      ensures errorText == "" && !closed && this.store == store
    {
      titleText := if tab.Some? && tab.value.title != "" then tab.value.title else DefaultTitle;
      urlValue := if tab.Some? then tab.value.url else "";
      aliasValue := if hostname.Some? then SuggestedAlias(hostname.value) else "";
      errorText := "";
      closed := false;
      this.store := store;
    }

    /** The save button: on success the entry is stored and the popup
        closes; otherwise the error line shows why and nothing is stored.
        The fields are left as they are. */
    method ClickSave(defaults: seq<Shortcut>)
      requires store.Valid()
      modifies this, store
      ensures store.Valid()
      ensures var o := Save(old(aliasValue), old(urlValue), defaults);
        && store.shortcuts == (if o.Saved? then Put(old(store.shortcuts), o.alias, o.url) else old(store.shortcuts))
        && errorText == (if o.Failed? then o.message else "")
        && closed == (old(closed) || o.Saved?)
      ensures aliasValue == old(aliasValue) && urlValue == old(urlValue) && titleText == old(titleText)
    {
      errorText := "";
      var alias := Trim(aliasValue);
      var url := Trim(urlValue);
      if alias == "" {
        errorText := AliasRequired;
        return;
      }
      if url == "" {
        errorText := UrlRequired;
        return;
      }
      if Found(defaults, alias) {
        errorText := BuiltinError(alias);
        return;
      }
      url := NormalizeUrl(url);
      var shortcuts := store.Load();
      PutKeepsDistinct(shortcuts, alias, url);
      shortcuts := Put(shortcuts, alias, url);
      store.Save(shortcuts);
      closed := true;
    }

    /** The cancel button closes the popup and stores nothing. */
    method ClickCancel()
      modifies this
      ensures closed
      ensures aliasValue == old(aliasValue) && urlValue == old(urlValue)
      ensures titleText == old(titleText) && errorText == old(errorText)
    {
      closed := true;
    }
  }

  /** The popup and the options page store the same entry for the same
      fields and built-in map, and refuse the same inputs; they differ only
      in how they say why. */
  lemma SaveAgreesWithAdd(aliasText: string, urlText: string, defaults: seq<Shortcut>)
    ensures Save(aliasText, urlText, defaults).Saved? <==> OptionsPage.Add(aliasText, urlText, defaults).Stored?
    ensures Save(aliasText, urlText, defaults).Saved? ==>
      && Save(aliasText, urlText, defaults).alias == OptionsPage.Add(aliasText, urlText, defaults).alias
      && Save(aliasText, urlText, defaults).url == OptionsPage.Add(aliasText, urlText, defaults).url
  {
  }

  /** Surrounding spaces in the fields make no difference to saving. */
  lemma SaveIgnoresSurroundingSpace(aliasText: string, urlText: string, defaults: seq<Shortcut>)
    ensures Save(Trim(aliasText), Trim(urlText), defaults) == Save(aliasText, urlText, defaults)
  {
    TrimIdempotent(aliasText);
    TrimIdempotent(urlText);
  }

  /** A built-in alias is never saved, so the popup cannot shadow one. */
  lemma BuiltinIsNeverSaved(aliasText: string, urlText: string)
    requires Found(Builtins, Trim(aliasText))
    ensures Save(aliasText, urlText, Builtins).Failed?
  {
  }
}
