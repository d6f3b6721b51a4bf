/** The options page (options.js): the add button, which validates the two
    input fields and stores one alias, and the delete and edit buttons of a
    row of the user's table. The built-in map arrives by message from the
    background script; here it is a parameter, as is the user's answer to
    the confirmation dialog. Rendering the table is not part of this model. */
module OptionsPage {
  import opened Text
  import opened UrlNormalizer
  import opened AliasMap
  import opened Storage
  import opened Wrappers

  /** What a click on the add button does with the two fields. */
  datatype AddOutcome =
    | Ignored                            // a field is blank: nothing happens
    | Rejected(message: string)          // a built-in alias: an alert
    | Stored(alias: string, url: string) // the entry written to storage

  /** The add handler normalises the URL inline: `https://` in front when it
      has no letters-only scheme and starts like a domain. This is the rule
      of `normalizeToUrl`. */
  function AddUrl(url: string): (r: string)
    ensures r == NormalizeToUrl(url)
  {
    if !HasLetterScheme(url) && LooksLikeDomain(url) then HttpsPrefix + url else url
  }

  function BuiltinAlert(alias: string): string {
    "\"" + alias + "\" is a built-in alias and cannot be changed."
  }

  /** The decision of the add handler for the raw field values, given the
      built-in map. */
  function Add(aliasText: string, urlText: string, defaults: seq<Shortcut>): (o: AddOutcome)
    ensures o.Ignored? <==> Trim(aliasText) == "" || Trim(urlText) == ""
    ensures o.Rejected? <==> Trim(aliasText) != "" && Trim(urlText) != "" && Found(defaults, Trim(aliasText))
    ensures o.Rejected? ==> o.message == BuiltinAlert(Trim(aliasText))
    ensures o.Stored? ==> o.alias == Trim(aliasText) != "" && o.url == NormalizeToUrl(Trim(urlText))
  {
    var alias, url := Trim(aliasText), Trim(urlText);
    if alias == "" || url == "" then Ignored
    else if Found(defaults, alias) then Rejected(BuiltinAlert(alias))
    else Stored(alias, AddUrl(url))
  }

  /** The map after the outcome: only a stored entry changes it. */
  function Apply(m: seq<Shortcut>, o: AddOutcome): seq<Shortcut> {
    if o.Stored? then Put(m, o.alias, o.url) else m
  }

  function ConfirmDelete(alias: string): string {
    "Are you sure you want to delete alias \"" + alias + "\"?"
  }

  class Page {
    var aliasInput: string
    var urlInput: string
    const store: SyncStore

    constructor (store: SyncStore)
      ensures this.store == store && aliasInput == "" && urlInput == ""
    {
      this.store := store;
      aliasInput := "";
      urlInput := "";
    }

    /** The add button. Returns the text of the alert it shows, if any. */
    method ClickAdd(defaults: seq<Shortcut>) returns (alert: Option<string>)
      requires store.Valid()
      modifies this, store
      ensures store.Valid()
      ensures var o := Add(old(aliasInput), old(urlInput), defaults);
        && store.shortcuts == Apply(old(store.shortcuts), o)
        && alert == (if o.Rejected? then Some(o.message) else None)
        && (if o.Stored? then aliasInput == "" && urlInput == ""
            else aliasInput == old(aliasInput) && urlInput == old(urlInput))
    {
      var alias := Trim(aliasInput);
      var url := Trim(urlInput);
      if alias == "" || url == "" {
        return None;
      }
      if Found(defaults, alias) {
        return Some(BuiltinAlert(alias));
      }
      if !HasLetterScheme(url) && LooksLikeDomain(url) {
        url := HttpsPrefix + url;
      }
      var current := store.Load();
      PutKeepsDistinct(current, alias, url);
      current := Put(current, alias, url);
      store.Save(current);
      aliasInput := "";
      urlInput := "";
      alert := None;
    }

    /** The delete button of the row for `alias`: `answer` is the user's
        reply to the confirmation dialog. */
    method ClickDelete(alias: string, answer: string -> bool)
      requires store.Valid()
      modifies store
      ensures store.Valid()
      ensures store.shortcuts ==
        if answer(ConfirmDelete(alias)) then Remove(old(store.shortcuts), alias) else old(store.shortcuts)
    {
      if !answer(ConfirmDelete(alias)) {
        return;
      }
      var current := store.Load();
      RemoveKeepsDistinct(current, alias);
      current := Remove(current, alias);
      store.Save(current);
    }

    /** The edit button of a row: copies the row into the two fields. */
    method ClickEdit(alias: string, url: string)
      modifies this
      ensures aliasInput == alias && urlInput == url
    {
      aliasInput := alias;
      urlInput := url;
    }
  }

  /** The fields are trimmed before anything else: surrounding spaces make
      no difference to what the add button does. */
  lemma AddIgnoresSurroundingSpace(aliasText: string, urlText: string, defaults: seq<Shortcut>)
    ensures Add(Trim(aliasText), Trim(urlText), defaults) == Add(aliasText, urlText, defaults)
  {
    TrimIdempotent(aliasText);
    TrimIdempotent(urlText);
  }

  /** A successful add maps the alias to the normalised URL and leaves every
      other alias as it was; otherwise the map does not change. */
  lemma AddChangesOnlyItsAlias(m: seq<Shortcut>, aliasText: string, urlText: string, defaults: seq<Shortcut>)
    ensures var o, r := Add(aliasText, urlText, defaults), Apply(m, Add(aliasText, urlText, defaults));
      && (o.Stored? ==> Lookup(r, Trim(aliasText)) == Some(NormalizeToUrl(Trim(urlText))))
      && (forall a :: a != Trim(aliasText) ==> Lookup(r, a) == Lookup(m, a))
      && (!o.Stored? ==> r == m)
  {
  }

  /** Adding the same alias and URL a second time changes nothing. */
  lemma AddIdempotent(m: seq<Shortcut>, aliasText: string, urlText: string, defaults: seq<Shortcut>)
    ensures var o := Add(aliasText, urlText, defaults);
      Apply(Apply(m, o), o) == Apply(m, o)
  {
    var o := Add(aliasText, urlText, defaults);
    if o.Stored? {
      PutIdempotent(Put(m, o.alias, o.url), o.alias, o.url);
    }
  }

  /** The URL stored by the add button is already normalised. */
  lemma StoredUrlIsNormalized(aliasText: string, urlText: string, defaults: seq<Shortcut>)
    requires Add(aliasText, urlText, defaults).Stored?
    ensures var u := Add(aliasText, urlText, defaults).url; NormalizeToUrl(u) == u
  {
    NormalizeIdempotent(Trim(urlText));
  }

  /** Editing a row and adding it again without touching the fields leaves
      the map as it was, when the row's URL is already normalised and
      trimmed and its alias is trimmed and no built-in. */
  lemma EditThenAddChangesNothing(m: seq<Shortcut>, alias: string, url: string, defaults: seq<Shortcut>)
    requires Lookup(m, alias) == Some(url)
    requires Trim(alias) == alias && Trim(url) == url && url != ""
    requires NormalizeToUrl(url) == url
    ensures Apply(m, Add(alias, url, defaults)) == m
  {
    if Add(alias, url, defaults).Stored? {
      PutIdempotent(m, alias, url);
    }
  }

  /** Deleting removes exactly the entry of the alias and keeps the other
      entries in their order; deleting an absent alias changes nothing. */
  lemma DeleteChangesOnlyItsAlias(m: seq<Shortcut>, alias: string)
    requires DistinctAliases(m)
    ensures forall i :: 0 <= i < |m| && m[i].alias == alias ==> Remove(m, alias) == m[..i] + m[i + 1..]
    ensures Lookup(m, alias) == None ==> Remove(m, alias) == m
  {
    forall i | 0 <= i < |m| && m[i].alias == alias
      ensures Remove(m, alias) == m[..i] + m[i + 1..]
    {
      RemoveAt(m, i);
    }
  }

  /** A successful add replaces the alias's entry where it stands, or
      appends a new entry when the alias was absent: the order of the other
      entries, which the suggestion list follows, is kept. */
  lemma AddKeepsOrder(m: seq<Shortcut>, aliasText: string, urlText: string, defaults: seq<Shortcut>)
    requires DistinctAliases(m)
    requires Add(aliasText, urlText, defaults).Stored?
    ensures var o := Add(aliasText, urlText, defaults);
      var e := Shortcut(o.alias, o.url);
      && (Lookup(m, o.alias) == None ==> Apply(m, o) == m + [e])
      && forall i :: 0 <= i < |m| && m[i].alias == o.alias ==> Apply(m, o) == m[..i] + [e] + m[i + 1..]
  {
    var o := Add(aliasText, urlText, defaults);
    if Lookup(m, o.alias) == None {
      PutNew(m, o.alias, o.url);
    }
    forall i | 0 <= i < |m| && m[i].alias == o.alias
      ensures Apply(m, o) == m[..i] + [Shortcut(o.alias, o.url)] + m[i + 1..]
    {
      PutAt(m, i, o.url);
    }
  }
}
