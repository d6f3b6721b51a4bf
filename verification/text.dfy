/** String operations of JavaScript that the extension relies on: `trim`,
    `split(/\s+/)`, `join`, `toLowerCase` (ASCII part), `includes`, and the two
    slash-stripping regular expressions `/\/+$/` and `/^\/+/`. */
module Text {

  /** The code points JavaScript calls WhiteSpace or LineTerminator. These are
      exactly what `String.prototype.trim` removes and what the regular
      expression class `\s` matches. */
  predicate IsSpace(c: char) {
    c in Spaces
  }

  const Spaces: set<char> := {
    '\t', '\n', '\U{000B}', '\U{000C}', '\r', ' ', '\U{00A0}', '\U{1680}',
    '\U{2000}', '\U{2001}', '\U{2002}', '\U{2003}', '\U{2004}', '\U{2005}',
    '\U{2006}', '\U{2007}', '\U{2008}', '\U{2009}', '\U{200A}',
    '\U{2028}', '\U{2029}', '\U{202F}', '\U{205F}', '\U{3000}', '\U{FEFF}'
  }

  /** The usual separators are white space; no letter, digit or slash, the
      characters of aliases and URL paths, is. */
  lemma SpaceCharacters(c: char)
    ensures c == ' ' || c == '\t' || c == '\n' || c == '\r' ==> IsSpace(c)
    ensures IsSpace(c) ==> !('0' <= c <= '9' || 'A' <= c <= 'Z' || 'a' <= c <= 'z' || c == '/')
  {
  }

  ghost predicate AllSpace(s: string) {
    forall i :: 0 <= i < |s| ==> IsSpace(s[i])
  }

  ghost predicate NoSpace(s: string) {
    forall i :: 0 <= i < |s| ==> !IsSpace(s[i])
  }

  /** Neither starts nor ends with a space: what `trim` produces. */
  ghost predicate Trimmed(s: string) {
    s == [] || (!IsSpace(s[0]) && !IsSpace(s[|s| - 1]))
  }

  /** The end of the run of spaces that starts at index `i`. */
  function SpaceRunEnd(s: string, i: nat): (j: nat)
    requires i <= |s|
    ensures i <= j <= |s|
    ensures forall k :: i <= k < j ==> IsSpace(s[k])
    ensures j == |s| || !IsSpace(s[j])
    decreases |s| - i
  {
    if i < |s| && IsSpace(s[i]) then SpaceRunEnd(s, i + 1) else i
  }

  /** The start of the run of spaces that ends just before index `j`. */
  function SpaceRunStart(s: string, j: nat): (i: nat)
    requires j <= |s|
    ensures i <= j
    ensures forall k :: i <= k < j ==> IsSpace(s[k])
    ensures i == 0 || !IsSpace(s[i - 1])
  {
    if j > 0 && IsSpace(s[j - 1]) then
    SpaceRunStart(s, j - 1) else j
  }

  /** `s.trim()`: `s` with its leading and trailing spaces removed. */
  function Trim(s: string): (r: string)
    ensures Trimmed(r) && |r| <= |s|
  {
    var i, j := SpaceRunEnd(s, 0), SpaceRunStart(s, |s|);
    if j <= i then []
    else
      assert s[i..j][0] == s[i] && s[i..j][j - i - 1] == s[j - 1];
      s[i..j]
  }

  /** What `trim` removes is spaces only: the result is a slice of `s` with
      nothing but spaces before and after it. */
  lemma TrimRemovesOnlySpace(s: string)
    ensures var r := Trim(s);
      exists i :: 0 <= i <= |s| - |r| && s[i..i + |r|] == r && AllSpace(s[..i]) && AllSpace(s[i + |r|..])
  {
    var i, j := SpaceRunEnd(s, 0), SpaceRunStart(s, |s|);
    if j <= i {
      assert AllSpace(s[..|s|]) by {
        forall k | 0 <= k < |s| ensures IsSpace(s[..|s|][k]) {
          assert k < i || j <= k;
        }
      }
      assert 0 <= |s| <= |s| - 0 && s[|s|..|s| + 0] == [] && AllSpace(s[..|s|]) && AllSpace(s[|s| + 0..]);
    } else {
      assert AllSpace(s[..i]) by {
        forall k | 0 <= k < i ensures IsSpace(s[..i][k]) {
        }
      }
      assert AllSpace(s[j..]) by {
        forall k | 0 <= k < |s| - j ensures IsSpace(s[j..][k]) {
          assert s[j..][k] == s[j + k];
        }
      }
      assert 0 <= i <= |s| - (j - i) && s[i..i + (j - i)] == s[i..j] && AllSpace(s[..i]) && AllSpace(s[i + (j - i)..]);
    }
  }

  /** Trimming a string that has no surrounding spaces gives it back. */
  lemma {:induction false} TrimOfTrimmed(s: string)
    requires Trimmed(s)
    ensures Trim(s) == s
  {
    if s != [] {
      assert SpaceRunEnd(s, 0) == 0;
      assert SpaceRunStart(s, |s|) == |s|;
      assert s[0..|s|] == s;
    }
  }

  /** Trimming twice is trimming once. */
  lemma TrimIdempotent(s: string)
    ensures Trim(Trim(s)) == Trim(s)
  {
    TrimOfTrimmed(Trim(s));
  }

  /** Index of the first space in `s`, or `|s|` when there is none. */
  function FirstSpace(s: string): (i: nat)
    ensures i <= |s|
    ensures NoSpace(s[..i])
    ensures i < |s| ==> IsSpace(s[i])
  {
    if s == [] || IsSpace(s[0]) then 0
    else
      var j := FirstSpace(s[1..]);
      assert s[..j + 1] == [s[0]] + s[1..][..j];
      j + 1
  }

  /** `s.split(/\s+/)`: the pieces of `s` between maximal runs of spaces. As
      in JavaScript, the result is never empty (`"".split(/\s+/)` is `[""]`),
      and a leading or trailing run of spaces yields an empty first or last
      piece. */
  function Split(s: string): (r: seq<string>)
    ensures |r| >= 1
    ensures forall k :: 0 <= k < |r| ==> NoSpace(r[k])
    decreases |s|
  {
    var i := FirstSpace(s);
    if i == |s| then
      assert s[..i] == s;
      [s]
    else
      var j := SpaceRunEnd(s, i);
      [s[..i]] + Split(s[j..])
  }

  /** `parts.join(sep)`. */
  function Join(parts: seq<string>, sep: string): (r: string)
    ensures |parts| >= 1 ==> parts[0] <= r
  {
    if |parts| == 0 then ""
    else if |parts| == 1 then parts[0]
    else parts[0] + sep + Join(parts[1..], sep)
  }

  /** A string without spaces is a single piece. */
  lemma {:induction false} SplitWithoutSpace(s: string)
    requires NoSpace(s)
    ensures Split(s) == [s]
  {
    assert FirstSpace(s) == |s|;
  }

  /** Splitting a string that `trim` produced gives only non-empty pieces,
      unless the string itself is empty. */
  lemma {:induction false} SplitOfTrimmed(s: string)
    requires Trimmed(s) && s != []
    ensures forall k :: 0 <= k < |Split(s)| ==> Split(s)[k] != []
    decreases |s|
  {
    var i := FirstSpace(s);
    if i < |s| {
      var j := SpaceRunEnd(s, i);
      assert i > 0;
      assert forall k :: i <= k < j ==> IsSpace(s[k]) by {
        forall k | i <= k < j ensures IsSpace(s[k]) {
          assert s[k] == s[i..j][k - i];
        }
      }
      assert j < |s|;
      var t := s[j..];
      assert t[|t| - 1] == s[|s| - 1];
      SplitOfTrimmed(t);
      assert Split(s) == [s[..i]] + Split(t);
    }
  }

  /** Splitting non-empty space-free tokens joined by single spaces gives the
      tokens back: the tail of an input is its tokens re-joined with exactly
      one space each. */
  lemma {:induction false} SplitJoin(tokens: seq<string>)
    requires |tokens| >= 1
    requires forall k :: 0 <= k < |tokens| ==> tokens[k] != [] && NoSpace(tokens[k])
    ensures Split(Join(tokens, " ")) == tokens
    decreases |tokens|
  {
    if |tokens| == 1 {
      SplitWithoutSpace(tokens[0]);
    } else {
      var t0 := tokens[0];
      var rest := Join(tokens[1..], " ");
      var s := t0 + " " + rest;
      assert Join(tokens, " ") == s;
      assert s[..|t0|] == t0;
      assert FirstSpace(s) == |t0| by {
        assert NoSpace(s[..|t0|]);
        assert IsSpace(s[|t0|]);
        FirstSpaceUnique(s, |t0|);
      }
      JoinStartsWith(tokens[1..]);
      assert s[|t0| + 1..] == rest;
      assert SpaceRunEnd(s, |t0|) == |t0| + 1 by {
        assert SpaceRunEnd(s, |t0| + 1) == |t0| + 1;
      }
      SplitJoin(tokens[1..]);
      assert Split(s) == [t0] + Split(rest);
    }
  }

  lemma FirstSpaceUnique(s: string, i: nat)
    requires i < |s| && NoSpace(s[..i]) && IsSpace(s[i])
    ensures FirstSpace(s) == i
  {
  }

  /** A join of tokens whose first one is non-empty and space-free starts
      with a non-space. */
  lemma JoinStartsWith(tokens: seq<string>)
    requires |tokens| >= 1
    requires forall k :: 0 <= k < |tokens| ==> tokens[k] != [] && NoSpace(tokens[k])
    ensures Join(tokens, " ") != [] && Join(tokens, " ")[0] == tokens[0][0]
  {
  }

  /** A run of spaces from `i` that stops at `j` is the run `SpaceRunEnd`
      finds. */
  lemma {:induction false} SpaceRunEndUnique(s: string, i: nat, j: nat)
    requires i <= j <= |s|
    requires forall k :: i <= k < j ==> IsSpace(s[k])
    requires j == |s| || !IsSpace(s[j])
    ensures SpaceRunEnd(s, i) == j
    decreases j - i
  {
    if i < j {
      SpaceRunEndUnique(s, i + 1, j);
    }
  }

  /** One step of `split(/\s+/)`: a space-free piece, then any non-empty run
      of spaces, then text that does not start with a space, splits into the
      piece followed by the pieces of that text. */
  lemma {:induction false} SplitStep(t: string, w: string, rest: string)
    requires NoSpace(t)
    requires w != [] && AllSpace(w)
    requires rest == [] || !IsSpace(rest[0])
    ensures Split(t + w + rest) == [t] + Split(rest)
  {
    var s := t + w + rest;
    var i, j := |t|, |t| + |w|;
    assert s[..i] == t;
    assert s[i] == w[0];
    FirstSpaceUnique(s, i);
    assert forall k :: i <= k < j ==> IsSpace(s[k]) by {
      forall k | i <= k < j ensures IsSpace(s[k]) {
        assert s[k] == w[k - i];
      }
    }
    assert j < |s| ==> s[j] == rest[0];
    SpaceRunEndUnique(s, i, j);
    assert s[j..] == rest;
  }

  /** `tokens` with the separator `seps[k]` between `tokens[k]` and
      `tokens[k + 1]`. */
  function Interleave(tokens: seq<string>, seps: seq<string>): string
    requires |tokens| >= 1 && |seps| == |tokens| - 1
  {
    if |tokens| == 1 then tokens[0]
    else tokens[0] + seps[0] + Interleave(tokens[1..], seps[1..])
  }

  /** `split(/\s+/)` recovers the words of a text whatever runs of spaces
      separate them: several spaces, tabs or line breaks each count as one
      separator. */
  lemma {:induction false} SplitInterleave(tokens: seq<string>, seps: seq<string>)
    requires |tokens| >= 1 && |seps| == |tokens| - 1
    requires forall k :: 0 <= k < |tokens| ==> tokens[k] != [] && NoSpace(tokens[k])
    requires forall k :: 0 <= k < |seps| ==> seps[k] != [] && AllSpace(seps[k])
    ensures Split(Interleave(tokens, seps)) == tokens
    decreases |tokens|
  {
    if |tokens| == 1 {
      SplitWithoutSpace(tokens[0]);
    } else {
      var rest := Interleave(tokens[1..], seps[1..]);
      InterleaveStartsWith(tokens[1..], seps[1..]);
      SplitStep(tokens[0], seps[0], rest);
      SplitInterleave(tokens[1..], seps[1..]);
    }
  }

  lemma {:induction false} InterleaveStartsWith(tokens: seq<string>, seps: seq<string>)
    requires |tokens| >= 1 && |seps| == |tokens| - 1 && tokens[0] != []
    ensures Interleave(tokens, seps) != [] && Interleave(tokens, seps)[0] == tokens[0][0]
  {
  }

  /** Separating by single spaces is a special case. */
  lemma {:induction false} JoinIsInterleave(tokens: seq<string>)
    requires |tokens| >= 1
    ensures Join(tokens, " ") == Interleave(tokens, seq(|tokens| - 1, _ => " "))
    decreases |tokens|
  {
    if |tokens| > 1 {
      JoinIsInterleave(tokens[1..]);
      assert seq(|tokens| - 1, _ => " ")[1..] == seq(|tokens| - 2, _ => " ");
    }
  }

  /** Two spaces or a tab separate words like one space: `x  y\tz` splits
      into `x`, `y` and `z`, so `gh  a\tb` into `gh`, `a` and `b`. */
  lemma SplitExample(x: string, y: string, z: string)
    requires x != [] && y != [] && z != []
    requires NoSpace(x) && NoSpace(y) && NoSpace(z)
    ensures Split(x + "  " + y + "\t" + z) == [x, y, z]
  {
    assert AllSpace("  ") && AllSpace("\t");
    SplitStep(y, "\t", z);
    SplitWithoutSpace(z);
    assert x + "  " + y + "\t" + z == x + "  " + (y + "\t" + z);
    SplitStep(x, "  ", y + "\t" + z);
  }

  /** JavaScript's `toLowerCase` on one character, for the ASCII range. */
  function LowerChar(c: char): (d: char)
    ensures !('A' <= d <= 'Z')
    ensures !('A' <= c <= 'Z') ==> d == c
    ensures 'A' <= c <= 'Z' ==> d as int == c as int + 32
  {
    if 'A' <= c <= 'Z' then (c as int + 32) as char else c
  }

  /** `s.toLowerCase()`, ASCII letters only. */
  function Lower(s: string): (r: string)
    ensures |r| == |s|
    ensures forall i :: 0 <= i < |s| ==> r[i] == LowerChar(s[i])
  {
    seq(|s|, i requires 0 <= i < |s| => LowerChar(s[i]))
  }

  /** `s.includes(q)`: `q` occurs in `s` as a contiguous piece. */
  predicate Contains(s: string, q: string)
    ensures q == [] ==> Contains(s, q)
    ensures Contains(s, q) ==> |q| <= |s|
    decreases |s|
  {
    q <= s || (s != [] && Contains(s[1..], q))
  }

  ghost predicate OccursAt(s: string, q: string, i: int) {
    0 <= i <= |s| - |q| && s[i..i + |q|] == q
  }

  /** The recursive test agrees with "some slice of `s` equals `q`". */
  lemma ContainsIff(s: string, q: string)
    ensures Contains(s, q) <==> exists i :: OccursAt(s, q, i)
  {
    if Contains(s, q) {
      var i := ContainsWitness(s, q);
    }
    if exists i :: OccursAt(s, q, i) {
      var i :| OccursAt(s, q, i);
      OccursContains(s, q, i);
    }
  }

  lemma {:induction false} ContainsWitness(s: string, q: string) returns (i: nat)
    requires Contains(s, q)
    ensures OccursAt(s, q, i)
    decreases |s|
  {
    if q <= s {
      i := 0;
      assert s[0..|q|] == q;
    } else {
      var j := ContainsWitness(s[1..], q);
      i := j + 1;
      assert s[1..][j..j + |q|] == s[i..i + |q|];
    }
  }

  lemma {:induction false} OccursContains(s: string, q: string, i: nat)
    requires OccursAt(s, q, i)
    ensures Contains(s, q)
    decreases i
  {
    if i == 0 {
      assert q == s[..|q|];
    } else {
      assert s[1..][i - 1..i - 1 + |q|] == s[i..i + |q|];
      OccursContains(s[1..], q, i - 1);
    }
  }

  ghost predicate AllSlashes(s: string) {
    forall i :: 0 <= i < |s| ==> s[i] == '/'
  }

  /** `s.replace(/\/+$/, "")`: `s` without its run of trailing slashes. */
  function StripTrailingSlashes(s: string): (r: string)
    ensures r <= s
    ensures forall k :: |r| <= k < |s| ==> s[k] == '/'
    ensures r == [] || r[|r| - 1] != '/'
  {
    if s != [] && s[|s| - 1] == '/' then StripTrailingSlashes(s[..|s| - 1]) else s
  }

  /** `s.replace(/^\/+/, "")`: `s` without its run of leading slashes. */
  function StripLeadingSlashes(s: string): (r: string)
    ensures |r| <= |s| && r == s[|s| - |r|..]
    ensures forall k :: 0 <= k < |s| - |r| ==> s[k] == '/'
    ensures r == [] || r[0] != '/'
  {
    if s != [] && s[0] == '/' then StripLeadingSlashes(s[1..]) else s
  }

  /** Stripping recovers the part before any run of trailing slashes. */
  lemma {:induction false} StripTrailingOf(b: string, x: string)
    requires b == [] || b[|b| - 1] != '/'
    requires AllSlashes(x)
    ensures StripTrailingSlashes(b + x) == b
    decreases |x|
  {
    var s := b + x;
    if x == [] {
      assert s == b;
    } else {
      assert s[|s| - 1] == '/' && s[..|s| - 1] == b + x[..|x| - 1];
      StripTrailingOf(b, x[..|x| - 1]);
    }
  }

  /** Stripping recovers the part after any run of leading slashes. */
  lemma {:induction false} StripLeadingOf(x: string, t: string)
    requires t == [] || t[0] != '/'
    requires AllSlashes(x)
    ensures StripLeadingSlashes(x + t) == t
    decreases |x|
  {
    var s := x + t;
    if x == [] {
      assert s == t;
    } else {
      assert s[0] == '/' && s[1..] == x[1..] + t;
      StripLeadingOf(x[1..], t);
    }
  }

  /** A string ends with any of its suffixes. */
  lemma {:induction false} ContainsSuffix(a: string, b: string)
    ensures Contains(a + b, b)
  {
    if a != [] {
      assert (a + b)[1..] == a[1..] + b;
      ContainsSuffix(a[1..], b);
    } else {
      assert a + b == b;
    }
  }

  /** Without upper-case ASCII letters: what `toLowerCase` produces. */
  ghost predicate NoUpper(s: string) {
    forall i :: 0 <= i < |s| ==> !('A' <= s[i] <= 'Z')
  }

  /** Trimming and lower-casing commute: lower-casing touches no space. */
  lemma TrimLower(s: string)
    ensures Trim(Lower(s)) == Lower(Trim(s))
  {
    SpaceRunEndLower(s, 0);
    SpaceRunStartLower(s, |s|);
    var i, j := SpaceRunEnd(s, 0), SpaceRunStart(s, |s|);
    if i < j {
      LowerSlice(s, i, j);
    }
  }

  lemma LowerSlice(s: string, i: nat, j: nat)
    requires i <= j <= |s|
    ensures Lower(s)[i..j] == Lower(s[i..j])
  {
  }

  /** Lower-casing turns no character into a space and no space into
      anything else. */
  lemma LowerCharSpace(c: char)
    ensures IsSpace(LowerChar(c)) <==> IsSpace(c)
  {
  }

  lemma {:induction false} SpaceRunEndLower(s: string, i: nat)
    requires i <= |s|
    ensures SpaceRunEnd(Lower(s), i) == SpaceRunEnd(s, i)
    decreases |s| - i
  {
    if i < |s| {
      LowerCharSpace(s[i]);
      SpaceRunEndLower(s, i + 1);
    }
  }

  lemma {:induction false} SpaceRunStartLower(s: string, j: nat)
    requires j <= |s|
    ensures SpaceRunStart(Lower(s), j) == SpaceRunStart(s, j)
  {
    if j > 0 {
      LowerCharSpace(s[j - 1]);
      SpaceRunStartLower(s, j - 1);
    }
  }

  /** The pieces of a string without upper-case letters have none either. */
  lemma {:induction false} SplitKeepsNoUpper(s: string)
    requires NoUpper(s)
    ensures forall k :: 0 <= k < |Split(s)| ==> NoUpper(Split(s)[k])
    decreases |s|
  {
    var i := FirstSpace(s);
    if i < |s| {
      SplitKeepsNoUpper(s[SpaceRunEnd(s, i)..]);
    }
  }

  lemma {:induction false} JoinKeepsNoUpper(parts: seq<string>)
    requires forall k :: 0 <= k < |parts| ==> NoUpper(parts[k])
    ensures NoUpper(Join(parts, " "))
  {
    if |parts| > 1 {
      JoinKeepsNoUpper(parts[1..]);
    }
  }
}
