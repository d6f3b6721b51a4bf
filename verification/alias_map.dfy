/** The shortcut map stored under the `shortcuts` key of synced storage: a
    JavaScript object from alias to URL. It is modelled as a sequence of
    entries in `Object.entries` order, with at most one entry per alias. */
module AliasMap {
  import opened Wrappers

  datatype Shortcut = Shortcut(alias: string, url: string)

  /** The built-in aliases (`DEFAULT_SHORTCUTS`), which the options page and
      the popup refuse to overwrite. */
  const Builtins: seq<Shortcut> := [
    Shortcut("gh", "https://github.com"),
    Shortcut("yt", "https://www.youtube.com"),
    Shortcut("gm", "https://mail.google.com"),
    Shortcut("x", "https://x.com"),
    Shortcut("lk", "https://www.linkedin.com")
  ]

  /** The built-in map has each alias once, no alias is empty, and every
      URL is an `https://` address. */
  lemma BuiltinsAreWellFormed()
    ensures DistinctAliases(Builtins)
    ensures forall e :: e in Builtins ==> e.alias != "" && "https://" <= e.url
  {
    assert Builtins[0].alias == "gh" && Builtins[1].alias == "yt" && Builtins[2].alias == "gm";
    assert Builtins[3].alias == "x" && Builtins[4].alias == "lk";
  }

  /** A JavaScript object has each key once. */
  ghost predicate DistinctAliases(m: seq<Shortcut>) {
    forall i, j :: 0 <= i < j < |m| ==> m[i].alias != m[j].alias
  }

  /** `m[alias]`: the URL stored for `alias`, `None` when it is absent. */
  function Lookup(m: seq<Shortcut>, alias: string): (r: Option<string>)
    ensures r.Some? ==> Shortcut(alias, r.value) in m
    ensures r.None? ==> forall e :: e in m ==> e.alias != alias
  {
    if m == [] then None
    else if m[0].alias == alias then Some(m[0].url)
    else Lookup(m[1..], alias)
  }

  /** `if (m[alias])`: the alias is present with a truthy, non-empty URL. */
  predicate Found(m: seq<Shortcut>, alias: string)
    ensures Found(m, alias) ==> exists e :: e in m && e.alias == alias && e.url != ""
  {
    var v := Lookup(m, alias);
    v.Some? && v.value != ""
  }

  /** In a map with distinct aliases, the entry at any position is what a
      lookup of its alias gives. */
  lemma {:induction false} LookupAt(m: seq<Shortcut>, i: nat)
    requires DistinctAliases(m) && i < |m|
    ensures Lookup(m, m[i].alias) == Some(m[i].url)
  {
    if i > 0 {
      LookupAt(m[1..], i - 1);
    }
  }

  /** `m[alias] = url`: an existing alias keeps its place and takes the new
      URL; a new alias is added at the end. */
  function Put(m: seq<Shortcut>, alias: string, url: string): (r: seq<Shortcut>)
    ensures Lookup(r, alias) == Some(url)
    ensures forall a :: a != alias ==> Lookup(r, a) == Lookup(m, a)
  {
    if m == [] then [Shortcut(alias, url)]
    else if m[0].alias == alias then [Shortcut(alias, url)] + m[1..]
    else [m[0]] + Put(m[1..], alias, url)
  }

  /** `delete m[alias]`: the entry for `alias` goes, the others stay in
      order. */
  function Remove(m: seq<Shortcut>, alias: string): (r: seq<Shortcut>)
    ensures Lookup(r, alias) == None
    ensures forall a :: a != alias ==> Lookup(r, a) == Lookup(m, a)
    ensures Lookup(m, alias) == None ==> r == m
  {
    if m == [] then []
    else if m[0].alias == alias then Remove(m[1..], alias)
    else [m[0]] + Remove(m[1..], alias)
  }

  /** Both updates keep the aliases distinct. */
  lemma {:induction false} PutKeepsDistinct(m: seq<Shortcut>, alias: string, url: string)
    requires DistinctAliases(m)
    ensures DistinctAliases(Put(m, alias, url))
  {
    if m != [] {
      var p := Put(m, alias, url);
      if m[0].alias != alias {
        PutKeepsDistinct(m[1..], alias, url);
        assert p[1..] == Put(m[1..], alias, url);
        forall e | e in p[1..] ensures e.alias != m[0].alias {
          assert Lookup(m[1..], m[0].alias) == None;
          assert Lookup(p[1..], m[0].alias) == None;
        }
      } else {
        assert p[1..] == m[1..];
      }
    }
  }

  lemma {:induction false} RemoveKeepsDistinct(m: seq<Shortcut>, alias: string)
    requires DistinctAliases(m)
    ensures DistinctAliases(Remove(m, alias))
  {
    if m != [] {
      RemoveKeepsDistinct(m[1..], alias);
      var d := Remove(m, alias);
      if m[0].alias != alias {
        assert d[1..] == Remove(m[1..], alias);
        forall e | e in d[1..] ensures e.alias != m[0].alias {
          assert Lookup(m[1..], m[0].alias) == None;
          assert Lookup(d[1..], m[0].alias) == None;
        }
      }
    }
  }

  /** An alias that no entry has is looked up as absent. */
  lemma {:induction false} LookupAbsent(m: seq<Shortcut>, alias: string)
    requires forall k :: 0 <= k < |m| ==> m[k].alias != alias
    ensures Lookup(m, alias) == None
  {
    if m != [] {
      LookupAbsent(m[1..], alias);
    }
  }

  lemma SeqAssoc<T>(x: seq<T>, y: seq<T>, z: seq<T>)
    ensures x + (y + z) == (x + y) + z
  {
  }

  /** Entries before the alias are passed over by `Put`. */
  lemma {:induction false} PutAfter(p: seq<Shortcut>, rest: seq<Shortcut>, alias: string, url: string)
    requires Lookup(p, alias) == None
    ensures Put(p + rest, alias, url) == p + Put(rest, alias, url)
  {
    if p == [] {
      assert p + rest == rest;
    } else {
      var q := p + rest;
      assert q[0] == p[0] && q[1..] == p[1..] + rest;
      PutAfter(p[1..], rest, alias, url);
      var r := Put(rest, alias, url);
      assert Put(q, alias, url) == [p[0]] + (p[1..] + r);
      assert [p[0]] + (p[1..] + r) == p + r by {
        SeqAssoc([p[0]], p[1..], r);
        assert [p[0]] + p[1..] == p;
      }
    }
  }

  /** Entries before the alias are passed over by `Remove`. */
  lemma {:induction false} RemoveAfter(p: seq<Shortcut>, rest: seq<Shortcut>, alias: string)
    requires Lookup(p, alias) == None
    ensures Remove(p + rest, alias) == p + Remove(rest, alias)
  {
    if p == [] {
      assert p + rest == rest;
    } else {
      var q := p + rest;
      assert q[0] == p[0] && q[1..] == p[1..] + rest;
      RemoveAfter(p[1..], rest, alias);
      var r := Remove(rest, alias);
      assert Remove(q, alias) == [p[0]] + (p[1..] + r);
      assert [p[0]] + (p[1..] + r) == p + r by {
        SeqAssoc([p[0]], p[1..], r);
        assert [p[0]] + p[1..] == p;
      }
    }
  }

  /** Deleting the alias of the entry at `i`, when no other entry has that
      alias (as in a map with distinct aliases), removes that entry and
      keeps the others in their order. */
  lemma {:induction false} RemoveAt(m: seq<Shortcut>, i: nat)
    requires i < |m|
    requires forall j :: 0 <= j < |m| && j != i ==> m[j].alias != m[i].alias
    ensures Remove(m, m[i].alias) == m[..i] + m[i + 1..]
  {
    var alias, p, rest := m[i].alias, m[..i], m[i..];
    assert m == p + rest;
    LookupAbsent(p, alias);
    RemoveAfter(p, rest, alias);
    var t := m[i + 1..];
    assert rest[1..] == t;
    LookupAbsent(t, alias);
    assert Remove(rest, alias) == Remove(t, alias) == t;
  }

  /** Storing a URL for the alias of the entry at `i`, when no earlier entry
      has that alias (as in a map with distinct aliases), replaces that entry
      where it stands. */
  lemma {:induction false} PutAt(m: seq<Shortcut>, i: nat, url: string)
    requires i < |m|
    requires forall j :: 0 <= j < i ==> m[j].alias != m[i].alias
    ensures Put(m, m[i].alias, url) == m[..i] + [Shortcut(m[i].alias, url)] + m[i + 1..]
  {
    var alias, p, rest := m[i].alias, m[..i], m[i..];
    assert m == p + rest;
    LookupAbsent(p, alias);
    PutAfter(p, rest, alias, url);
    assert rest[1..] == m[i + 1..];
    assert Put(rest, alias, url) == [Shortcut(alias, url)] + m[i + 1..];
  }

  /** The map grows by one entry exactly when the stored alias was new. */
  lemma {:induction false} PutLength(m: seq<Shortcut>, alias: string, url: string)
    ensures |Put(m, alias, url)| == if Lookup(m, alias).Some? then |m| else |m| + 1
  {
    if m != [] && m[0].alias != alias {
      PutLength(m[1..], alias, url);
    }
  }

  /** Storing a URL for an absent alias appends a new entry at the end. */
  lemma {:induction false} PutNew(m: seq<Shortcut>, alias: string, url: string)
    requires Lookup(m, alias) == None
    ensures Put(m, alias, url) == m + [Shortcut(alias, url)]
  {
    if m != [] {
      assert m[0].alias != alias;
      assert Lookup(m[1..], alias) == None;
      PutNew(m[1..], alias, url);
      assert Put(m, alias, url) == [m[0]] + (m[1..] + [Shortcut(alias, url)]);
      assert m == [m[0]] + m[1..];
    }
  }

  /** Storing the URL an alias already has changes nothing. */
  lemma {:induction false} PutIdempotent(m: seq<Shortcut>, alias: string, url: string)
    requires Lookup(m, alias) == Some(url)
    ensures Put(m, alias, url) == m
  {
    if m[0].alias != alias {
      PutIdempotent(m[1..], alias, url);
    }
  }

  /** Apart from the entry for the alias, `Put` leaves the map as it was,
      order included. */
  lemma {:induction false} PutKeepsOthers(m: seq<Shortcut>, alias: string, url: string)
    ensures Remove(Put(m, alias, url), alias) == Remove(m, alias)
  {
    if m != [] && m[0].alias != alias {
      PutKeepsOthers(m[1..], alias, url);
    }
  }

  /** Deleting an alias and storing it again puts it back at the end. */
  lemma {:induction false} RemoveThenPut(m: seq<Shortcut>, alias: string, url: string)
    ensures Put(Remove(m, alias), alias, url) == Remove(m, alias) + [Shortcut(alias, url)]
  {
    if m != [] {
      RemoveThenPut(m[1..], alias, url);
    }
  }
}
