# quick-launch alias engine

A Dafny model of the core of the quick-launch Chrome extension. After the
omnibox keyword, the user types an alias such as `gh`, optionally followed
by more text. The extension then opens the URL stored for that alias,
composed with the rest of the text. Input that is no alias opens as a URL
when it looks like one. Anything else becomes a Google search. The aliases
live in one map under the `shortcuts` key of synced storage. Two pages
write to that map: the options page adds and deletes entries, and the "add
current page" popup saves the active tab under an alias.

The model has these modules:

- `Wrappers`: the `Option` type, `None` where JavaScript yields `undefined`.
- `Text`: the JavaScript string operations the scripts use, modelled
  exactly on Dafny strings:
  - `trim`, with the full set of code points JavaScript counts as white space;
  - `split(/\s+/)` and `join(" ")`;
  - `toLowerCase` for ASCII letters;
  - `includes`;
  - the regular expressions `/\/+$/` and `/^\/+/`.
- `UrlNormalizer`: the three-way prefix rule `normalizeToUrl` and its two
  regular-expression tests.
- `UriEncoding`: `encodeURIComponent`, with a decoder proved to be its
  inverse.
- `AliasMap`: the shortcut map as an ordered sequence of entries, kept in
  `Object.entries` order, with at most one entry per alias. It provides
  lookup, `m[alias] = url` and `delete m[alias]`.
- `Resolver`: the Enter decision of `onInputEntered`, as a function from
  the typed text and the map to the target URL.
- `Suggestions`: the `onInputChanged` list builder as a method with a
  loop, proved equal to a specification function. The function's
  properties are proved as lemmas.
- `Storage`: the synced `shortcuts` entry, as an object with `load` and
  `save`.
- `OptionsPage`: the add, edit and delete buttons of options.js, as a
  class over the store.
- `AddCurrentPopup`: the popup of js/add_current.js. It covers the
  hostname-based alias suggestion and the save and cancel buttons, as a
  class over the store.

In the modelled parts, the two background scripts differ only in the
`content` of the alias suggestions. `Suggestions.ContentStyle` selects between them.
js/background.js adds a random base-36 string to each one. That string is
a parameter `nonce`, indexed by the entry's position in the map.

Some behaviours of the code are easy to miss when reading it:

- **Slashes at the join.** `/\/+$/` removes every trailing slash of the
  base and `/^\/+/` every leading slash of the tail, so exactly one slash
  joins them (`Resolver.ComposeOneSlash`).
- **Case in alias lookups.** The Enter handler looks the first token up as
  typed (`Resolver.UpperCaseTokenIsNoAlias`). The suggestion list looks it
  up lower-cased (`Suggestions.SuggestionsIgnoreCase`).
- **Suggestion content.** background.js sends the bare key as the content
  of an alias suggestion. js/background.js always sends `$`, the key, a
  space and a random string.
- **Suggested alias.** The popup takes the first two characters of the text
  before the first dot, after one leading `www.`. The comment at
  js/add_current.js:42 says `github` gives `gh`, but the code gives `gi`
  for `www.github.com` (`AddCurrentPopup.GithubSuggestion`).

## Model

| member | source | states |
|---|---|---|
| Text.SpaceCharacters | background.js:77-80 | the white-space set of `trim` and `\s` contains space, tab, line feed and carriage return, and no ASCII letter, digit or slash |
| Text.Trim | background.js:77 | the trimmed text neither starts nor ends with white space and is no longer than the input |
| Text.TrimRemovesOnlySpace | background.js:77 | the trimmed text is a contiguous slice of the input with only white space before and after it |
| Text.TrimOfTrimmed | background.js:77 | text without surrounding white space is returned unchanged |
| Text.TrimIdempotent | background.js:77 | trimming twice is trimming once |
| Text.Split | background.js:80 | `split(/\s+/)` gives at least one token and no token contains white space |
| Text.SplitStep | background.js:80 | a space-free piece, then any non-empty run of white space, then text not starting with white space, splits into the piece followed by the pieces of that text |
| Text.SpaceRunEndUnique | background.js:80 | the run of white space `/\s+/` consumes from a position ends exactly where the first non-space character (or the end) is |
| Text.SplitInterleave | background.js:80 | non-empty space-free tokens separated by any non-empty runs of white space (several spaces, tabs, line breaks) split back into exactly those tokens |
| Text.JoinIsInterleave | background.js:86 | `join(" ")` is the case where every separator is one space |
| Text.SplitExample | background.js:80 | two spaces or a tab separate words like one space: `x  y\tz` splits into `x`, `y`, `z` |
| Text.Join | background.js:86 | the joined text starts with the first part |
| Text.SplitWithoutSpace | background.js:80 | text without white space splits into itself alone |
| Text.SplitOfTrimmed | background.js:80 | a non-empty trimmed text splits into non-empty tokens |
| Text.SplitJoin | background.js:80 | joining non-empty space-free tokens with single spaces and splitting again gives back the tokens |
| Text.Lower | background.js:42 | `toLowerCase` keeps the length and lower-cases each character on its own |
| Text.LowerChar | background.js:42 | an ASCII capital moves 32 code points up; every other character is kept; no capital remains |
| Text.Contains | background.js:53 | every text includes the empty string, and a text includes only strings no longer than itself |
| Text.ContainsIff | background.js:53 | `includes` holds exactly when the query occurs at some index |
| Text.ContainsWitness | background.js:53 | when `includes` holds, an index of an occurrence exists |
| Text.OccursContains | background.js:53 | an occurrence at any index makes `includes` hold |
| Text.ContainsSuffix | background.js:67 | a string contains every string it ends with |
| Text.StripTrailingSlashes | background.js:87 | `/\/+$/` removes a trailing run made only of slashes, and no slash is left at the end |
| Text.StripLeadingSlashes | background.js:87 | `/^\/+/` removes a leading run made only of slashes, and no slash is left at the start |
| Text.StripTrailingOf | background.js:87 | a base not ending in a slash, followed by any run of slashes, strips back to the base |
| Text.StripLeadingOf | background.js:87 | any run of slashes followed by a tail not starting with a slash strips back to the tail |
| Text.TrimLower | background.js:42 | trimming and lower-casing commute, so the order in `text.trim().toLowerCase()` does not matter |
| Text.SplitKeepsNoUpper | background.js:46 | the tokens of a lower-case text are lower-case |
| Text.JoinKeepsNoUpper | background.js:63 | joining lower-case tokens gives a lower-case text |
| UrlNormalizer.HasLetterScheme | background.js:11 | text passing `/^[a-z]+:\/\//i` has at least four characters and starts with a letter |
| UrlNormalizer.HasWordScheme | background.js:93 | text passing `/^[\w-]+:\/\//` has at least four characters and starts with a word character or hyphen |
| UrlNormalizer.LooksLikeDomain | background.js:12 | text passing `/^[\w-]+\.[\w.-]+/` has at least three characters and starts with a word character or hyphen |
| UrlNormalizer.WordSchemeMatchesRegex | background.js:93 | the Enter handler's scheme test holds exactly when the text starts with one or more word characters or hyphens followed by `://` |
| UrlNormalizer.LetterSchemeMatchesRegex | background.js:11 | the scheme test holds exactly when the text starts with one or more ASCII letters followed by `://` |
| UrlNormalizer.DomainMatchesRegex | background.js:12 | the domain test holds exactly when the text starts with word characters or hyphens, a dot, then a word character, dot or hyphen |
| UrlNormalizer.LetterSchemeIsWordScheme | background.js:93 | a letters-only scheme also passes the Enter handler's wider `^[\w-]+://` test |
| UrlNormalizer.NormalizeToUrl | background.js:10-14 | the result is the input or `https://` plus the input; it is the latter exactly when there is no letters-only scheme and the input looks like a domain; the result has a letters-only scheme exactly when the input had one or looked like a domain |
| UrlNormalizer.HttpsSchemeIsLetterScheme | background.js:12 | whatever `https://` is put in front of has a letters-only scheme |
| UrlNormalizer.NormalizeIdempotent | js/background.js:10-14 | normalising twice is normalising once |
| UriEncoding.HexRoundTrip | background.js:97 | each hexadecimal digit written by the encoder reads back as its value |
| UriEncoding.Utf8 | background.js:97 | each character becomes one to four UTF-8 bytes |
| UriEncoding.Encode | background.js:97 | the encoding is never shorter than the text |
| UriEncoding.DecodeOneEncodeChar | background.js:97 | the first character of an encoding decodes back from exactly the characters it was encoded to |
| UriEncoding.DecodeEncode | background.js:97 | percent-decoding the encoding of any text gives back the text |
| UriEncoding.EncodeKeepsUnreserved | background.js:97 | the encoding leaves a text unchanged exactly when all its characters are in `A-Za-z0-9-_.!~*'()` |
| UriEncoding.EncodeSpace | background.js:97 | a space is encoded as `%20` |
| UriEncoding.EncodeConcat | background.js:97 | the encoding of a concatenation is the concatenation of the encodings |
| UriEncoding.TwoWordsQuery | background.js:97 | two unreserved words with a space between them encode as the words around `%20` |
| AliasMap.BuiltinsAreWellFormed | background.js:1-7 | the built-in map (`gh`, `yt`, `gm`, `x`, `lk`) has distinct, non-empty aliases and only `https://` URLs |
| AliasMap.Lookup | background.js:81 | a found URL belongs to an entry of the map with that alias; an absent alias has no entry |
| AliasMap.Found | background.js:84 | a truthy `m[alias]` means the map has an entry with that alias and a non-empty URL |
| AliasMap.LookupAbsent | background.js:81 | an alias no entry has is looked up as absent |
| AliasMap.LookupAt | background.js:81 | in a map with distinct aliases, looking up the alias of any entry gives that entry's URL |
| AliasMap.Put | options.js:123 | after `m[alias] = url` the alias gives `url` and every other alias gives what it gave before |
| AliasMap.PutLength | options.js:123 | `m[alias] = url` adds one entry exactly when the alias was absent, and none otherwise |
| AliasMap.PutAt | options.js:123 | storing the alias of the entry at position `i` (no earlier entry having it) replaces that entry in place: `m[..i] + [(alias, url)] + m[i+1..]` |
| AliasMap.PutNew | options.js:123 | storing an absent alias appends its entry at the end: `m + [(alias, url)]` |
| AliasMap.PutAfter | options.js:123 | entries before the alias's entry are passed over: they stay in front, unchanged |
| AliasMap.Remove | options.js:87 | after `delete m[alias]` the alias is absent, every other alias is unchanged, and deleting an absent alias changes nothing |
| AliasMap.RemoveAt | options.js:87 | deleting the alias of the entry at position `i` (no other entry having it) gives `m[..i] + m[i+1..]`: the other entries keep their order |
| AliasMap.RemoveAfter | options.js:87 | entries before the alias's entry are passed over: they stay in front, unchanged |
| AliasMap.PutKeepsDistinct | options.js:123 | storing an alias keeps the aliases distinct |
| AliasMap.RemoveKeepsDistinct | options.js:87 | deleting an alias keeps the aliases distinct |
| AliasMap.PutIdempotent | options.js:123 | storing the URL an alias already has leaves the map unchanged, order included |
| AliasMap.PutKeepsOthers | options.js:123 | apart from the stored alias's entry, the map and its order are unchanged |
| AliasMap.RemoveThenPut | options.js:87 | deleting an alias and adding it again puts it at the end of the entry order |
| Resolver.Compose | background.js:87 | the composition starts with the base minus its trailing slashes and one slash, and is at most one character longer than base and tail together |
| Resolver.StripTrailingRemainder | background.js:87 | what `/\/+$/` removes from the base is a run of slashes after the kept prefix |
| Resolver.StripLeadingRemainder | background.js:87 | what `/^\/+/` removes from the tail is a run of slashes before the kept suffix |
| Resolver.BaseThenSlash | background.js:87 | the base minus its trailing slashes, one slash and any tail: the base prefix, then the slash, with no slash before it |
| Resolver.ComposeKeepsBase | background.js:87 | the composed URL starts with the base minus its trailing slashes, followed by one slash, and no slash just before that slash |
| Resolver.SlashThenTail | background.js:87 | any base, one slash, then the tail minus its leading slashes: the removed part is a run of slashes and no slash follows the separator |
| Resolver.ComposeKeepsTail | background.js:87 | after the separating slash comes the tail minus its leading slashes, with no slash just after the separator |
| Resolver.ComposeOneSlash | background.js:87 | however many slashes end the base and start the tail, exactly one joins them |
| Resolver.Target | background.js:75-99 | for a found first token the target starts with its URL minus trailing slashes; otherwise it is the trimmed text, the trimmed text behind `https://`, or a search URL |
| Resolver.AliasAloneOpensUrl | background.js:84-90 | a found alias typed alone opens its stored URL verbatim |
| Resolver.AliasWithTailOpensComposed | background.js:80-87 | a found alias followed by tokens, separated by any non-empty runs of white space, opens the base composed with the tokens re-joined by single spaces |
| Resolver.UrlLikeOpensNormalized | background.js:91-94 | text whose first token is not found and which looks like a URL opens as `normalizeToUrl` gives it, meaning the text itself or the text behind `https://` |
| Resolver.OtherTextIsSearched | background.js:95-98 | other text opens exactly `https://www.google.com/search?q=` followed by `encodeURIComponent` of the trimmed text, and that query decodes back to the trimmed text |
| Resolver.BlankInputSearchesNothing | js/background.js:110-113 | blank input opens the search URL with an empty query |
| Resolver.GithubTopicsExample | background.js:45 | the source comment's example: `gh topics/chrome` composes to `https://github.com/topics/chrome` |
| Resolver.UpperCaseTokenIsNoAlias | background.js:80-81 | the Enter lookup keeps the case of the typed token, so a token with a capital finds no lower-case alias |
| Resolver.BuiltinsAreLowerCase | background.js:1-7 | all built-in aliases are lower-case |
| Suggestions.Suggestions | background.js:40-72 | the list handed to `suggest` has at most six entries |
| Suggestions.Query | background.js:42 | the query is no longer than the typed text and has no capital |
| Suggestions.Matches | background.js:53 | a pair matches a query only when the query fits in its key or its URL |
| Suggestions.Describe | background.js:56 | an alias entry's description starts with `🔗 ` and the key and ends with the URL |
| Suggestions.AliasSuggestion | background.js:54-57 | an alias entry shows the pair's description; its content is the key (background.js) or starts with `$`, the key and a space (js/background.js) |
| Suggestions.SuggestionsFor | background.js:71 | the list handed to `suggest` has at most six entries |
| Suggestions.NoComposedListsAliases | background.js:49-71 | without a composed entry, the list is the alias entries in map order, the first six of them when there are more |
| Suggestions.ComposedSuggestion | background.js:62-69 | a composed entry exists exactly when the lower-cased first token is found and more tokens follow |
| Suggestions.AliasSuggestions | background.js:52-59 | the loop over the first `n` pairs pushes at most `n` entries |
| Suggestions.BuildSuggestions | background.js:40-72 | the list the handler builds is the specification list for the typed text and the map |
| Suggestions.CollectMatches | background.js:52-59 | the `forEach` loop pushes one entry per matching pair, in map order |
| Suggestions.AliasEntriesAreMatches | js/background.js:67-74 | the alias entries correspond one-to-one, in order, to the pairs whose key contains the query or whose lower-cased URL does; each shows `🔗 key — url`; the content is the key (background.js) or starts with `$key ` (js/background.js) |
| Suggestions.MatchingEntriesAppend | background.js:52 | filtering a concatenation of maps filters each part |
| Suggestions.SuggestionCount | background.js:71 | the list has min(6, number of matching pairs plus one if a composed entry exists) entries |
| Suggestions.ComposedComesFirst | js/background.js:76-84 | when the lower-cased first token is found and more tokens follow, entry 0 has content alias, space, tail, its description contains the composed URL, and the alias entries follow it |
| Suggestions.ComposedIsHead | background.js:62-71 | a composed entry heads the list, ahead of the alias entries |
| Suggestions.CappedHead | background.js:71 | `slice(0, 6)` of a list keeps its first entry first and a prefix of the rest behind it |
| Suggestions.ComposedIsLowerCase | background.js:42-46 | the composed entry's content is lower-case whatever the case of the typed text |
| Suggestions.SuggestionsIgnoreCase | background.js:42 | lower-casing the typed text does not change the list |
| Suggestions.BlankQueryListsAll | background.js:53 | with nothing typed, the list shows the first six pairs of the map, in order |
| Suggestions.AllMatchBlank | background.js:53 | the empty query keeps every pair |
| Storage.SyncStore.constructor | options.js:16-22 | the store holds the given map, which has distinct aliases |
| Storage.SyncStore.Load | options.js:16-22 | `load` returns the stored map |
| Storage.SyncStore.Save | options.js:25-29 | `save(m)`, for a map with distinct aliases, makes `m` the stored map and keeps the store valid |
| OptionsPage.AddUrl | options.js:117-120 | the add handler's inline URL rule gives the same result as `normalizeToUrl` |
| OptionsPage.Add | options.js:106-120 | the add is ignored exactly when a trimmed field is empty; it is rejected, with the built-in alert, exactly when both are filled and the trimmed alias is a found built-in; otherwise it stores the trimmed alias with the normalised trimmed URL |
| OptionsPage.Page.constructor | options.js:2-3 | the page holds the two input fields, which start empty (their initial value comes from the page's HTML, not from the script) |
| OptionsPage.Page.ClickAdd | options.js:106-128 | the stored map becomes the old map with the outcome of `Add` applied and keeps distinct aliases; the alert is shown exactly on rejection; the fields are cleared exactly on a store |
| OptionsPage.Page.ClickDelete | options.js:83-88 | if the user confirms the prompt naming the alias, the stored map loses that alias; otherwise it is unchanged; aliases stay distinct |
| OptionsPage.Page.ClickEdit | options.js:74-78 | the row's alias and URL are copied into the two fields |
| OptionsPage.AddIgnoresSurroundingSpace | options.js:107-108 | surrounding white space in the fields changes nothing |
| OptionsPage.AddChangesOnlyItsAlias | options.js:122-124 | a store maps the alias to the normalised URL and leaves every other alias unchanged; otherwise the map is unchanged |
| OptionsPage.AddIdempotent | options.js:122-124 | adding the same fields twice is the same as adding them once |
| OptionsPage.StoredUrlIsNormalized | options.js:117-120 | the stored URL is a fixed point of `normalizeToUrl` |
| OptionsPage.EditThenAddChangesNothing | options.js:106-124 | adding back an edited row whose fields are trimmed and whose URL is already normalised leaves the map unchanged |
| OptionsPage.DeleteChangesOnlyItsAlias | options.js:86-88 | in a map with distinct aliases, delete removes exactly the alias's entry and keeps the other entries in their order; deleting an absent alias changes nothing |
| OptionsPage.AddKeepsOrder | options.js:122-124 | a successful add replaces the alias's entry where it stands, or appends a new entry when the alias was absent; the other entries keep their order |
| AddCurrentPopup.NormalizeUrl | js/add_current.js:5-9 | the popup's `normalizeUrl` agrees with `normalizeToUrl` on every input, so it follows the same rule and is idempotent |
| AddCurrentPopup.Save | js/add_current.js:53-78 | an empty trimmed alias gives "Alias is required." before the URL is checked; then an empty trimmed URL gives "URL is required."; then a found built-in alias gives the built-in error; otherwise the trimmed alias is saved with the normalised trimmed URL |
| AddCurrentPopup.StripWww | js/add_current.js:45 | exactly one leading `www.` is removed when present; otherwise the host is kept |
| AddCurrentPopup.FirstLabel | js/add_current.js:46-47 | the first label is a dot-free prefix of the host, ending at the first dot or at the end |
| AddCurrentPopup.SuggestedAlias | js/add_current.js:45-48 | the suggested alias has at most two characters and no capital |
| AddCurrentPopup.SuggestedAliasIsLabelStart | js/add_current.js:43-49 | the suggestion is the lower-cased first min(2, label length) characters of the first label after `www.`, with no capital and no dot |
| AddCurrentPopup.SuggestionOfLowerStart | js/add_current.js:45-48 | a label starting with two lower-case letters is suggested those letters |
| AddCurrentPopup.GithubSuggestion | js/add_current.js:42-48 | `www.github.com` is suggested `gi` |
| AddCurrentPopup.Popup.constructor | js/add_current.js:38-49 | the title is the tab's title or "Current Page"; the URL field is the tab's URL or empty; the alias field holds the hostname's suggestion, or is empty without a parsed hostname; no error; not closed |
| AddCurrentPopup.Popup.ClickSave | js/add_current.js:53-81 | on a save, the stored map gets the entry and the popup closes; on failure the error line shows the message and the map is unchanged; the error line is cleared first; the fields are unchanged; aliases stay distinct |
| AddCurrentPopup.Popup.ClickCancel | js/add_current.js:51 | cancel closes the popup and changes nothing else |
| AddCurrentPopup.SaveAgreesWithAdd | js/add_current.js:53-78 | the popup saves exactly when the options page would store, and with the same alias and URL |
| AddCurrentPopup.SaveIgnoresSurroundingSpace | js/add_current.js:56-57 | surrounding white space in the fields changes nothing |
| AddCurrentPopup.BuiltinIsNeverSaved | js/add_current.js:68-72 | an alias with a built-in URL is never saved |

## Left out

- Browser APIs (`chrome.storage.sync`, `runtime.sendMessage`/`onMessage`, `contextMenus`, `action.openPopup`, `tabs.query`/`create`/`update`, `openOptionsPage` and `openOptionsSafe`) and the Promise wrappers around them. The map, the built-in map and the active tab are parameters, or the fields of `Storage.SyncStore`.
- The reads that fall back to defaults: `getShortcuts` returns the built-ins when nothing is stored, and `getDefaults` returns `{}` when no reply comes. In both cases the map is a parameter, so any map, these ones included, is covered.
- The disposition `switch` that opens the target (background.js:101-117). It consists only of browser calls.
- The `onInstalled` seeding of the built-ins (background.js:24-30). It is a storage side effect.
- DOM rendering, `renderRows` and `renderAll`. This includes the delete handler's re-render call at options.js:90, which passes `tbody` and an undefined `refs` to a one-argument function after the delete is already saved. Focus calls, `alert`, `confirm`, `window.close` and the Enter keydown handler are left out too. The confirmation's answer is a parameter, the alert is a returned value, and `window.close` sets a `closed` flag.
- `Math.random().toString(36).slice(2)`. It is an arbitrary string per map position (`nonce`).
- The `new URL(...)` parser. The popup receives the hostname, or nothing when there is no tab or the URL does not parse.
- Text.Lower: lower-cases ASCII letters only. JavaScript's `toLowerCase` also maps other scripts' capitals.
- UriEncoding.Encode: covers strings of Unicode scalar values. Lone surrogates, for which `encodeURIComponent` throws, cannot occur in a Dafny string.
- JavaScript object key order puts integer-like keys first, in numeric order. The model keeps insertion order for every key.
- Prototype keys such as `shortcuts["constructor"]` are left out. The model finds only stored entries.
- Both background scripts split the query before the suggestion loop. `Suggestions.BuildSuggestions` splits after the loop, which does not use the tokens.
- The context-menu registration of js/background.js is left out.
