/**
  The few operations of Python's `str` that the reply parser relies on,
  over `string` (= `seq<char>`): `strip()`, `find`, `split(sep)`,
  `split(sep, 1)` and `replace`.  Every separator the parser uses is a
  non-empty constant, so the operations require a non-empty separator
  (Python raises `ValueError` on an empty one).
*/
module PyStr {
  import opened Options

  /** The characters for which Python's `str.isspace()` holds; `strip()` with no
      argument removes exactly these from both ends. */
  predicate IsSpace(c: char)
  {
    || ('\t' <= c <= '\r')                 // \t \n \x0b \x0c \r
    || ('\U{1C}' <= c <= ' ')              // \x1c .. \x1f and the space
    || c == '\U{85}' || c == '\U{A0}' || c == '\U{1680}'
    || ('\U{2000}' <= c <= '\U{200A}')
    || c == '\U{2028}' || c == '\U{2029}' || c == '\U{202F}' || c == '\U{205F}'
    || c == '\U{3000}'
  }

  predicate AllSpace(s: string)
  {
    forall k | 0 <= k < |s| :: IsSpace(s[k])
  }

  /** Neither end of `s` is white space (the shape of every `strip()` result). */
  predicate Trimmed(s: string)
  {
    s == [] || (!IsSpace(s[0]) && !IsSpace(s[|s| - 1]))
  }

  // ---------------------------------------------------------------------------
  // strip()

  /** `s.lstrip()`: `s` without its leading white space. */
  function LStrip(s: string): (r: string)
    ensures |r| <= |s| && r == s[|s| - |r|..]
    ensures forall k | 0 <= k < |s| - |r| :: IsSpace(s[k])
    ensures r == [] || !IsSpace(r[0])
  {
    if s != [] && IsSpace(s[0]) then LStrip(s[1..]) else s
  }

  /** `s.rstrip()`: `s` without its trailing white space. */
  function RStrip(s: string): (r: string)
    ensures |r| <= |s| && r == s[..|r|]
    ensures forall k | |r| <= k < |s| :: IsSpace(s[k])
    ensures r == [] || !IsSpace(r[|r| - 1])
  {
    if s != [] && IsSpace(s[|s| - 1]) then RStrip(s[..|s| - 1]) else s
  }

  /** Python's `s.strip()`: `s` with its leading and trailing white space removed. */
  function Strip(s: string): (r: string)
    ensures |r| <= |s| && Trimmed(r)
    ensures r == [] <==> AllSpace(s)
  {
    StripFacts(s);
    RStrip(LStrip(s))
  }

  lemma StripFacts(s: string)
    ensures var r := RStrip(LStrip(s)); Trimmed(r) && (r == [] <==> AllSpace(s))
  {
    var l := LStrip(s);
    var r := RStrip(l);
    LStripSplit(s);
    RStripSplit(l);
    StripShape(s, s[..|s| - |l|], l, r, l[|r|..]);
  }

  lemma LStripSplit(s: string)
    ensures var l := LStrip(s); s == s[..|s| - |l|] + l && AllSpace(s[..|s| - |l|])
  {
    var l := LStrip(s);
    var a := s[..|s| - |l|];
    assert AllSpace(a) by {
      forall k | 0 <= k < |a| ensures IsSpace(a[k]) { assert a[k] == s[k]; }
    }
    assert s == a + l by { assert l == s[|a|..]; }
  }

  /** Regrouping a concatenation, stated over plain variables so that no
      literal's characters and no element's contents enter the proof. */
  lemma Assoc<T>(a: seq<T>, b: seq<T>, c: seq<T>)
    ensures a + b + c == a + (b + c)
  {
  }

  /** The same for four parts. */
  lemma Regroup<T>(p: seq<T>, b: seq<T>, m: seq<T>, c: seq<T>)
    ensures p + b + m + c == p + (b + m + c)
  {
  }

  lemma {:induction false} RStripSplit(s: string)
    ensures var r := RStrip(s); s == r + s[|r|..] && AllSpace(s[|r|..])
  {
    if s != [] && IsSpace(s[|s| - 1]) {
      var t := s[..|s| - 1];
      var r := RStrip(t);
      RStripSplit(t);
      assert RStrip(s) == r;
      assert s[|r|..] == t[|r|..] + [s[|s| - 1]];
      assert s == t + [s[|s| - 1]];
    } else {
      assert s[|s|..] == [];
    }
  }

  lemma StripShape(s: string, a: string, l: string, r: string, b: string)
    requires s == a + l && AllSpace(a) && (l == [] || !IsSpace(l[0]))
    requires l == r + b && AllSpace(b)
    requires r == [] || !IsSpace(r[|r| - 1])
    ensures s == a + r + b && Trimmed(r)
    ensures r == [] <==> AllSpace(s)
  {
    assert s == a + r + b;
    assert r != [] ==> r[0] == l[0];
    if r == [] {
      assert s == a + b;
      AllSpaceConcat(a, b);
    }
    assert l != [] ==> l[0] == s[|a|];
  }

  lemma AllSpaceConcat(a: string, b: string)
    requires AllSpace(a) && AllSpace(b)
    ensures AllSpace(a + b)
  {
    forall k | 0 <= k < |a + b| ensures IsSpace((a + b)[k]) {
      if k >= |a| { assert (a + b)[k] == b[k - |a|]; }
    }
  }

  lemma {:induction false} LStripSpaces(a: string, t: string)
    requires AllSpace(a) && (t == [] || !IsSpace(t[0]))
    ensures LStrip(a + t) == t
  {
    if a != [] {
      assert (a + t)[1..] == a[1..] + t;
      LStripSpaces(a[1..], t);
    } else {
      assert a + t == t;
    }
  }

  lemma {:induction false} RStripSpaces(t: string, b: string)
    requires AllSpace(b) && (t == [] || !IsSpace(t[|t| - 1]))
    ensures RStrip(t + b) == t
  {
    if b != [] {
      assert (t + b)[..|t + b| - 1] == t + b[..|b| - 1];
      RStripSpaces(t, b[..|b| - 1]);
    } else {
      assert t + b == t;
    }
  }

  /** `strip()` is determined by its result's shape: padding a trimmed string
      with white space on both sides and stripping gives the string back. */
  lemma StripPadded(a: string, m: string, b: string)
    requires AllSpace(a) && AllSpace(b) && Trimmed(m)
    ensures Strip(a + m + b) == m
  {
    if m == [] {
      assert a + m + b == a + b;
      AllSpaceConcat(a, b);
    } else {
      assert a + m + b == a + (m + b);
      LStripSpaces(a, m + b);
      RStripSpaces(m, b);
    }
  }

  /** A string with no white space at its ends is left as it is. */
  lemma StripTrimmed(s: string)
    requires Trimmed(s)
    ensures Strip(s) == s
  {
    assert LStrip(s) == s;
    assert RStrip(s) == s;
  }

  /** `strip()` is idempotent. */
  lemma StripIdempotent(s: string)
    ensures Strip(Strip(s)) == Strip(s)
  {
    StripTrimmed(Strip(s));
  }

  // ---------------------------------------------------------------------------
  // Occurrences and find

  /** `pat` occurs in `s` starting at index `i`. */
  predicate At(s: string, i: nat, pat: string)
  {
    i + |pat| <= |s| && s[i..i + |pat|] == pat
  }

  /** Python's `pat in s`. */
  predicate Contains(s: string, pat: string)
  {
    exists i: nat | i <= |s| :: At(s, i, pat)
  }

  function FindFrom(s: string, pat: string, i: nat): (r: Option<nat>)
    requires i <= |s|
    ensures r.Some? ==> i <= r.value && At(s, r.value, pat)
    ensures r.Some? ==> forall j: nat | i <= j < r.value :: !At(s, j, pat)
    ensures r.None? ==> forall j: nat | i <= j <= |s| :: !At(s, j, pat)
    decreases |s| - i
  {
    if At(s, i, pat) then Some(i)
    else if i == |s| then None
    else FindFrom(s, pat, i + 1)
  }

  /** Python's `s.find(pat)`, with `None` for -1: the first index where `pat` occurs. */
  function Find(s: string, pat: string): (r: Option<nat>)
    ensures r.Some? ==> At(s, r.value, pat) && forall j: nat | j < r.value :: !At(s, j, pat)
    ensures r.None? <==> !Contains(s, pat)
  {
    FindFrom(s, pat, 0)
  }

  /** A prefix of `s` that ends before the first occurrence of `pat` does not contain `pat`. */
  lemma NoOccurrenceBefore(s: string, pat: string, i: nat)
    requires pat != [] && i <= |s|
    requires forall j: nat | j < i :: !At(s, j, pat)
    ensures !Contains(s[..i], pat)
  {
    forall j: nat | j <= i && At(s[..i], j, pat) ensures false {
      assert s[..i][j..j + |pat|] == s[j..j + |pat|];
      assert At(s, j, pat);
    }
  }

  /** For a one-character pattern, containment is membership. */
  lemma ContainsChar(s: string, c: char)
    ensures Contains(s, [c]) <==> c in s
  {
    if c in s {
      var k :| 0 <= k < |s| && s[k] == c;
      assert At(s, k, [c]);
    }
    if Contains(s, [c]) {
      var k: nat :| k <= |s| && At(s, k, [c]);
      assert s[k] == s[k..k + 1][0];
    }
  }

  // ---------------------------------------------------------------------------
  // split(sep) and its inverse join

  /** Python's `sep.join(parts)`. */
  function Join(parts: seq<string>, sep: string): string
    requires parts != []
  {
    if |parts| == 1 then parts[0] else parts[0] + sep + Join(parts[1..], sep)
  }

  /** Python's `s.split(sep)` for a non-empty `sep`: the pieces between the
      occurrences of `sep`, found left to right without overlap. */
  function Split(s: string, sep: string): (parts: seq<string>)
    requires sep != []
    ensures parts != []
    ensures Join(parts, sep) == s
    ensures forall k | 0 <= k < |parts| :: !Contains(parts[k], sep)
    ensures |parts| == 1 <==> !Contains(s, sep)
    decreases |s|
  {
    match Find(s, sep)
    case None => [s]
    case Some(i) =>
      var rest := Split(s[i + |sep|..], sep);
      SplitStep(s, sep, i, rest);
      [s[..i]] + rest
  }

  lemma SplitStep(s: string, sep: string, i: nat, rest: seq<string>)
    requires sep != [] && Find(s, sep) == Some(i) && rest != []
    requires Join(rest, sep) == s[i + |sep|..]
    requires forall k | 0 <= k < |rest| :: !Contains(rest[k], sep)
    ensures Join([s[..i]] + rest, sep) == s
    ensures forall k | 0 <= k < |[s[..i]] + rest| :: !Contains(([s[..i]] + rest)[k], sep)
    ensures Contains(s, sep)
  {
    var parts := [s[..i]] + rest;
    NoOccurrenceBefore(s, sep, i);
    assert parts[1..] == rest;
    assert s == s[..i] + sep + s[i + |sep|..];
    forall k | 0 <= k < |parts| ensures !Contains(parts[k], sep) {
      if k > 0 { assert parts[k] == rest[k - 1]; }
    }
  }

  /** Splitting at a first occurrence: the text before it is the first piece. */
  lemma SplitAtFirst(s: string, sep: string, i: nat)
    requires sep != [] && Find(s, sep) == Some(i)
    ensures Split(s, sep) == [s[..i]] + Split(s[i + |sep|..], sep)
  {
  }

  /** An occurrence of `pat` inside `x` is an occurrence inside `x + y`. */
  lemma AtExtended(x: string, y: string, j: nat, pat: string)
    requires j + |pat| <= |x|
    ensures At(x + y, j, pat) <==> At(x, j, pat)
  {
    assert (x + y)[j..j + |pat|] == x[j..j + |pat|];
  }

  lemma FindCharInLeft(x: string, c: char, y: string, i: nat)
    requires Find(x, [c]) == Some(i)
    ensures Find(x + [c] + y, [c]) == Some(i)
  {
    var s := x + [c] + y;
    assert s == x + ([c] + y);
    AtExtended(x, [c] + y, i, [c]);
    forall j: nat | j < i ensures !At(s, j, [c]) {
      AtExtended(x, [c] + y, j, [c]);
    }
  }

  lemma FindCharAtSeparator(x: string, c: char, y: string)
    requires Find(x, [c]) == None
    ensures Find(x + [c] + y, [c]) == Some(|x|)
  {
    var s := x + [c] + y;
    assert s == x + ([c] + y);
    assert s[|x|..|x| + 1] == [c];
    assert At(s, |x|, [c]);
    forall j: nat | j < |x| ensures !At(s, j, [c]) {
      assert !At(x, j, [c]);
      AtExtended(x, [c] + y, j, [c]);
    }
  }

  /** Splitting `x + c + y` on the one-character separator `c` splits `x` and `y`
      separately. */
  lemma {:induction false} SplitOnChar(x: string, c: char, y: string)
    ensures Split(x + [c] + y, [c]) == Split(x, [c]) + Split(y, [c])
    decreases |x|
  {
    var s := x + [c] + y;
    match Find(x, [c])
    case None =>
      FindCharAtSeparator(x, c, y);
      SplitAtFirst(s, [c], |x|);
      assert s[..|x|] == x && s[|x| + 1..] == y;
    case Some(i) =>
      FindCharInLeft(x, c, y, i);
      var rest := x[i + 1..];
      assert s[..i] == x[..i];
      assert s[i + 1..] == rest + [c] + y;
      SplitAtFirst(s, [c], i);
      SplitAtFirst(x, [c], i);
      SplitOnChar(rest, c, y);
      Assoc([x[..i]], Split(rest, [c]), Split(y, [c]));
  }

  /** A pattern with a character that `s` lacks does not occur in `s`. */
  lemma AbsentChar(s: string, pat: string, i: nat)
    requires i < |pat| && pat[i] !in s
    ensures !Contains(s, pat)
  {
    forall j: nat | j <= |s| ensures !At(s, j, pat) {
      if j + |pat| <= |s| {
        assert s[j..j + |pat|][i] == s[j + i];
      }
    }
  }

  /** A character that is not in the pattern separates occurrences: `pat`
      occurs in `x + [c] + y` only if it occurs in `x` or in `y`. */
  lemma ForeignChar(x: string, c: char, y: string, pat: string)
    requires c !in pat && !Contains(x, pat) && !Contains(y, pat)
    ensures !Contains(x + [c] + y, pat)
  {
    var s := x + [c] + y;
    forall j: nat | j <= |s| ensures !At(s, j, pat) {
      if j + |pat| <= |x| {
        assert s == x + ([c] + y);
        AtExtended(x, [c] + y, j, pat);
      } else if j > |x| {
        if j + |pat| <= |s| {
          assert s[j..j + |pat|] == y[j - |x| - 1..j - |x| - 1 + |pat|];
          assert !At(y, j - |x| - 1, pat);
        }
      } else if j + |pat| <= |s| {
        assert s[j..j + |pat|][|x| - j] == s[|x|] == c;
      }
    }
  }

  /** Joining pieces that lack `pat` with a separator character foreign to
      `pat` gives a text that lacks `pat`. */
  lemma {:induction false} JoinLacks(parts: seq<string>, c: char, pat: string)
    requires parts != [] && c !in pat
    requires forall k | 0 <= k < |parts| :: !Contains(parts[k], pat)
    ensures !Contains(Join(parts, [c]), pat)
  {
    if |parts| > 1 {
      JoinLacks(parts[1..], c, pat);
      ForeignChar(parts[0], c, Join(parts[1..], [c]), pat);
    }
  }

  /** Splitting on a character undoes joining with it, when no piece holds it. */
  lemma {:induction false} SplitJoin(parts: seq<string>, c: char)
    requires parts != []
    requires forall k | 0 <= k < |parts| :: c !in parts[k]
    ensures Split(Join(parts, [c]), [c]) == parts
  {
    ContainsChar(parts[0], c);
    if |parts| > 1 {
      SplitJoin(parts[1..], c);
      SplitOnChar(parts[0], c, Join(parts[1..], [c]));
      assert [parts[0]] + parts[1..] == parts;
    }
  }

  /** Joining non-empty trimmed pieces gives a trimmed text. */
  lemma {:induction false} JoinTrimmed(parts: seq<string>, sep: string)
    requires parts != []
    requires forall k | 0 <= k < |parts| :: parts[k] != [] && Trimmed(parts[k])
    ensures Join(parts, sep) != [] && Trimmed(Join(parts, sep))
  {
    if |parts| > 1 {
      JoinTrimmed(parts[1..], sep);
      var rest := Join(parts[1..], sep);
      assert (parts[0] + sep + rest)[0] == parts[0][0];
      assert (parts[0] + sep + rest)[|parts[0] + sep + rest| - 1] == rest[|rest| - 1];
    }
  }

  // ---------------------------------------------------------------------------
  // replace and split(sep, 1)

  /** Python's `s.replace(pat, rep)` for a non-empty `pat`: every occurrence,
      found left to right without overlap, replaced by `rep`. */
  function Replace(s: string, pat: string, rep: string): (r: string)
    requires pat != []
    ensures !Contains(s, pat) ==> r == s
    decreases |s|
  {
    match Find(s, pat)
    case None => s
    case Some(i) => s[..i] + rep + Replace(s[i + |pat|..], pat, rep)
  }

  /** A leading occurrence is replaced and the rest, which lacks the
      pattern, is kept. */
  lemma ReplaceLeading(pat: string, rest: string, rep: string)
    requires pat != [] && !Contains(rest, pat)
    ensures Replace(pat + rest, pat, rep) == rep + rest
  {
    var s := pat + rest;
    assert s[..|pat|] == pat;
    assert At(s, 0, pat);
    assert s[|pat|..] == rest;
  }

  /** For a non-empty pattern, `s.replace(pat, rep)` equals `rep.join(s.split(pat))`. */
  lemma {:induction false} ReplaceIsJoinOfSplit(s: string, pat: string, rep: string)
    requires pat != []
    ensures Replace(s, pat, rep) == Join(Split(s, pat), rep)
    decreases |s|
  {
    match Find(s, pat)
    case None =>
    case Some(i) =>
      ReplaceIsJoinOfSplit(s[i + |pat|..], pat, rep);
      var rest := Split(s[i + |pat|..], pat);
      assert Split(s, pat) == [s[..i]] + rest;
      assert ([s[..i]] + rest)[1..] == rest;
  }

  /** Python's `a, b = s.split(sep, 1)`: `None` where the unpacking raises
      `ValueError` because `sep` does not occur. */
  function SplitOnce(s: string, sep: string): (r: Option<(string, string)>)
    requires sep != []
    ensures r.None? <==> !Contains(s, sep)
    ensures r.Some? ==> r.value.0 + sep + r.value.1 == s && !Contains(r.value.0, sep)
  {
    match Find(s, sep)
    case None => None
    case Some(i) =>
      NoOccurrenceBefore(s, sep, i);
      assert s == s[..i] + sep + s[i + |sep|..];
      Some((s[..i], s[i + |sep|..]))
  }

  /** `split(sep, 1)` yields the same first piece as `split(sep)`. */
  lemma SplitOnceIsSplitHead(s: string, sep: string)
    requires sep != [] && Contains(s, sep)
    ensures SplitOnce(s, sep).Some? && SplitOnce(s, sep).value.0 == Split(s, sep)[0]
  {
  }
}
