/** The URL normaliser shared by the background scripts (`normalizeToUrl`), the
    popup (`normalizeUrl`) and the options page (inline), and the regular
    expressions it and the Enter handler test. Each regular expression is
    anchored at the start of the string; a `...Regex` ghost predicate states
    what the expression matches, and a lemma proves the executable test
    equivalent to it. */
module UrlNormalizer {

  /** `[a-z]` under the `i` flag: an ASCII letter of either case. */
  predicate IsLetter(c: char) {
    'a' <= c <= 'z' || 'A' <= c <= 'Z'
  }

  /** `\w`: ASCII letter, digit or underscore. */
  predicate IsWordChar(c: char) {
    IsLetter(c) || '0' <= c <= '9' || c == '_'
  }

  /** `[\w-]` */
  predicate IsWordOrHyphen(c: char) {
    IsWordChar(c) || c == '-'
  }

  /** `[\w.-]` */
  predicate IsHostChar(c: char) {
    IsWordOrHyphen(c) || c == '.'
  }

  /** Length of the longest prefix of `s` whose characters all satisfy `p`. */
  function Run(s: string, p: char -> bool): (k: nat)
    ensures k <= |s|
    ensures forall i :: 0 <= i < k ==> p(s[i])
    ensures k == |s| || !p(s[k])
  {
    if s != [] && p(s[0]) then 1 + Run(s[1..], p) else 0
  }

  /** `/^[a-z]+:\/\//i.test(s)`: a letters-only scheme followed by `://`. */
  predicate HasLetterScheme(s: string)
    ensures HasLetterScheme(s) ==> |s| >= 4 && IsLetter(s[0])
  {
    var k := Run(s, IsLetter);
    k >= 1 && "://" <= s[k..]
  }

  /** `/^[\w-]+:\/\//.test(s)`: the wider scheme test of the Enter handler. */
  predicate HasWordScheme(s: string)
    ensures HasWordScheme(s) ==> |s| >= 4 && IsWordOrHyphen(s[0])
  {
    var k := Run(s, IsWordOrHyphen);
    k >= 1 && "://" <= s[k..]
  }

  /** `/^[\w-]+\.[\w.-]+/.test(s)`: starts like `host.tld`. */
  predicate LooksLikeDomain(s: string)
    ensures LooksLikeDomain(s) ==> |s| >= 3 && IsWordOrHyphen(s[0])
  {
    var k := Run(s, IsWordOrHyphen);
    k >= 1 && k + 1 < |s| && s[k] == '.' && IsHostChar(s[k + 1])
  }

  ghost predicate AllOf(s: string, p: char -> bool) {
    forall i :: 0 <= i < |s| ==> p(s[i])
  }

  /** What `/^[a-z]+:\/\//i` matches, as the regular expression reads: some
      non-empty prefix of letters, then `://`. */
  ghost predicate LetterSchemeRegex(s: string) {
    exists k :: 1 <= k && k + 3 <= |s| && AllOf(s[..k], IsLetter) && s[k..k + 3] == "://"
  }

  /** What `/^[\w-]+:\/\//` matches, as the regular expression reads. */
  ghost predicate WordSchemeRegex(s: string) {
    exists k :: 1 <= k && k + 3 <= |s| && AllOf(s[..k], IsWordOrHyphen) && s[k..k + 3] == "://"
  }

  /** What `/^[\w-]+\.[\w.-]+/` matches, as the regular expression reads. */
  ghost predicate DomainRegex(s: string) {
    exists k :: 1 <= k && k + 1 < |s| && AllOf(s[..k], IsWordOrHyphen) && s[k] == '.' && IsHostChar(s[k + 1])
  }

  /** A prefix all of whose characters satisfy `p`, followed by a character
      that does not, is exactly the run of `p` characters. */
  lemma RunIsUnique(s: string, p: char -> bool, k: nat)
    requires k < |s| && AllOf(s[..k], p) && !p(s[k])
    ensures Run(s, p) == k
  {
  }

  /** The greedy run test agrees with the regular expression's search over
      all prefixes (the regular expression backtracks, but `:` is not a
      letter, so only the longest run can be followed by `://`). */
  lemma LetterSchemeMatchesRegex(s: string)
    ensures HasLetterScheme(s) <==> LetterSchemeRegex(s)
  {
    var r := Run(s, IsLetter);
    if HasLetterScheme(s) {
      assert s[r..r + 3] == "://";
      assert AllOf(s[..r], IsLetter);
    }
    if LetterSchemeRegex(s) {
      var k :| 1 <= k && k + 3 <= |s| && AllOf(s[..k], IsLetter) && s[k..k + 3] == "://";
      assert s[k] == ':';
      RunIsUnique(s, IsLetter, k);
      assert s[k..][..3] == "://";
    }
  }

  /** Likewise for the Enter handler's scheme test: `:` is not in `[\w-]`. */
  lemma WordSchemeMatchesRegex(s: string)
    ensures HasWordScheme(s) <==> WordSchemeRegex(s)
  {
    var r := Run(s, IsWordOrHyphen);
    if HasWordScheme(s) {
      assert s[r..r + 3] == "://";
      assert AllOf(s[..r], IsWordOrHyphen);
    }
    if WordSchemeRegex(s) {
      var k :| 1 <= k && k + 3 <= |s| && AllOf(s[..k], IsWordOrHyphen) && s[k..k + 3] == "://";
      assert s[k] == ':';
      RunIsUnique(s, IsWordOrHyphen, k);
      assert s[k..][..3] == "://";
    }
  }

  /** Likewise for the domain test: `.` is not in `[\w-]`, so the leading
      run is the only candidate. */
  lemma DomainMatchesRegex(s: string)
    ensures LooksLikeDomain(s) <==> DomainRegex(s)
  {
    var r := Run(s, IsWordOrHyphen);
    if LooksLikeDomain(s) {
      assert AllOf(s[..r], IsWordOrHyphen);
    }
    if DomainRegex(s) {
      var k :| 1 <= k && k + 1 < |s| && AllOf(s[..k], IsWordOrHyphen) && s[k] == '.' && IsHostChar(s[k + 1]);
      RunIsUnique(s, IsWordOrHyphen, k);
    }
  }

  /** A letters-only scheme is also a `[\w-]` scheme, so every input that
      `normalizeToUrl` leaves alone for its scheme passes the Enter handler's
      URL test. */
  lemma {:induction false} LetterSchemeIsWordScheme(s: string)
    requires HasLetterScheme(s)
    ensures HasWordScheme(s)
  {
    var k := Run(s, IsLetter);
    assert s[k] == ':';
    RunIsUnique(s, IsWordOrHyphen, k);
  }

  const HttpsPrefix := "https://"

  /** `normalizeToUrl(input)`: text that already has a letters-only scheme is
      kept; text that looks like a bare domain gets `https://` in front;
      anything else is kept. */
  function NormalizeToUrl(s: string): (r: string)
    ensures r == s || r == HttpsPrefix + s
    ensures r == HttpsPrefix + s <==> !HasLetterScheme(s) && LooksLikeDomain(s)
    ensures HasLetterScheme(r) <==> HasLetterScheme(s) || LooksLikeDomain(s)
  {
    HttpsSchemeIsLetterScheme(s);
    if HasLetterScheme(s) then s
    else if LooksLikeDomain(s) then HttpsPrefix + s
    else s
  }

  /** Any text behind `https://` has a letters-only scheme. */
  lemma HttpsSchemeIsLetterScheme(s: string)
    ensures HasLetterScheme(HttpsPrefix + s)
  {
    var t := HttpsPrefix + s;
    assert t[..5] == "https";
    assert AllOf(t[..5], IsLetter);
    RunIsUnique(t, IsLetter, 5);
    assert t[5..][..3] == "://";
  }

  /** Normalising twice is the same as normalising once. */
  lemma {:induction false} NormalizeIdempotent(s: string)
    ensures NormalizeToUrl(NormalizeToUrl(s)) == NormalizeToUrl(s)
  {
    HttpsSchemeIsLetterScheme(s);
  }
}
