/** String handling used by the lookup and the quiz: JavaScript's `split(' ')`,
    `join(' ')`, `trim()` and `toLowerCase()`, and the query normalisation built on them. */
module Text {
  import opened Wrappers

  const Space: char := ' '

  // ---------------------------------------------------------------------------
  // split(' ') and join(' ')
  // ---------------------------------------------------------------------------

  /** `s.split(' ')`: cuts at every single space character, so leading, trailing
      or adjacent spaces give empty tokens and the empty string gives `[""]`. */
  function Split(s: string): (tokens: seq<string>)
    ensures |tokens| > 0
    ensures forall k :: 0 <= k < |tokens| ==> Space !in tokens[k]
  {
    if s == [] then [""]
    else
      var rest := Split(s[1..]);
      if s[0] == Space then [""] + rest
      else [[s[0]] + rest[0]] + rest[1..]
  }

  /** `parts.join(' ')`: the parts with one space between neighbours; `[]` gives `""`.
      The result starts with the first part, followed by a space when more come. */
  function Join(parts: seq<string>): (r: string)
    ensures parts == [] ==> r == ""
    ensures |parts| > 0 ==> |parts[0]| <= |r| && r[..|parts[0]|] == parts[0]
    ensures |parts| > 1 ==> |parts[0]| < |r| && r[|parts[0]|] == Space
  {
    if |parts| == 0 then ""
    else if |parts| == 1 then parts[0]
    else parts[0] + [Space] + Join(parts[1..])
  }

  /** Splitting on a space and joining with a space gives back the string. */
  lemma {:induction false} JoinSplit(s: string)
    ensures Join(Split(s)) == s
  {
    if s != [] {
      JoinSplit(s[1..]);
      var rest := Split(s[1..]);
      if s[0] == Space {
        assert Split(s) == [""] + rest;
        assert (([""] + rest)[1..]) == rest;
      } else {
        var first := [s[0]] + rest[0];
        assert Split(s) == [first] + rest[1..];
        if |rest| > 1 {
          assert ([first] + rest[1..])[1..] == rest[1..];
          assert Join(rest) == rest[0] + [Space] + Join(rest[1..]);
        }
      }
    }
  }

  /** Cutting at one space splits the tokens of both sides apart. */
  lemma {:induction false} SplitAround(a: string, b: string)
    ensures Split(a + [Space] + b) == Split(a) + Split(b)
  {
    if a == [] {
      assert a + [Space] + b == [Space] + b;
      assert ([Space] + b)[1..] == b;
    } else {
      var s := a + [Space] + b;
      assert s[0] == a[0] && s[1..] == a[1..] + [Space] + b;
      SplitAround(a[1..], b);
    }
  }

  /** Tokens that hold no space survive a join followed by a split. */
  lemma {:induction false} SplitJoin(parts: seq<string>)
    requires |parts| > 0
    requires forall k :: 0 <= k < |parts| ==> Space !in parts[k]
    ensures Split(Join(parts)) == parts
  {
    if |parts| == 1 {
      SplitWithoutSpace(parts[0]);
    } else {
      SplitWithoutSpace(parts[0]);
      SplitJoin(parts[1..]);
      SplitAround(parts[0], Join(parts[1..]));
      assert parts == [parts[0]] + parts[1..];
    }
  }

  /** A string with no space is a single token. */
  lemma {:induction false} SplitWithoutSpace(s: string)
    requires Space !in s
    ensures Split(s) == [s]
  {
    if s != [] {
      assert s == [s[0]] + s[1..];
      SplitWithoutSpace(s[1..]);
    }
  }

  // ---------------------------------------------------------------------------
  // trim() and toLowerCase()
  // ---------------------------------------------------------------------------

  /** The characters `trim()` removes: ECMAScript WhiteSpace and LineTerminator. */
  predicate IsJsSpace(c: char) {
    c in JsSpaces || '\U{2000}' <= c <= '\U{200A}'
  }

  const JsSpaces: set<char> := {
    '\t', '\n', '\U{000B}', '\U{000C}', '\r', ' ', '\U{00A0}', '\U{1680}',
    '\U{2028}', '\U{2029}', '\U{202F}', '\U{205F}', '\U{3000}', '\U{FEFF}'
  }

  predicate AllSpace(s: string) {
    forall k :: 0 <= k < |s| ==> IsJsSpace(s[k])
  }

  /** Neither end of `s` is a whitespace character. */
  predicate Trimmed(s: string) {
    s == [] || (!IsJsSpace(s[0]) && !IsJsSpace(s[|s| - 1]))
  }

  /** How many whitespace characters `s` starts with. */
  function Leading(s: string): (n: nat)
    ensures n <= |s|
    ensures forall k :: 0 <= k < n ==> IsJsSpace(s[k])
    ensures n < |s| ==> !IsJsSpace(s[n])
  {
    if s != [] && IsJsSpace(s[0]) then 1 + Leading(s[1..]) else 0
  }

  /** How many whitespace characters `s` ends with. */
  function Trailing(s: string): (n: nat)
    ensures n <= |s|
    ensures forall k :: |s| - n <= k < |s| ==> IsJsSpace(s[k])
    ensures n < |s| ==> !IsJsSpace(s[|s| - n - 1])
  {
    if s != [] && IsJsSpace(s[|s| - 1]) then 1 + Trailing(s[..|s| - 1]) else 0
  }

  /** `trimStart()`: `s` without its leading whitespace. */
  function TrimStart(s: string): string {
    s[Leading(s)..]
  }

  /** `trimEnd()`: `s` without its trailing whitespace. */
  function TrimEnd(s: string): string {
    s[..|s| - Trailing(s)]
  }

  /** `trim()`: the part of `s` between its leading and its trailing whitespace. It
      does not start or end with whitespace, and everything cut off is whitespace. */
  function Trim(s: string): (r: string)
    ensures Trimmed(r)
    ensures Leading(s) + |r| <= |s| && r == s[Leading(s)..Leading(s) + |r|]
    ensures forall k :: 0 <= k < Leading(s) ==> IsJsSpace(s[k])
    ensures forall k :: Leading(s) + |r| <= k < |s| ==> IsJsSpace(s[k])
  {
    TrimIsSlice(s);
    TrimIsTrimmed(s);
    TrimCutsTrailing(s);
    TrimEnd(TrimStart(s))
  }

  lemma TrimIsSlice(s: string)
    ensures var r := TrimEnd(TrimStart(s));
            Leading(s) + |r| <= |s| && r == s[Leading(s)..Leading(s) + |r|]
  {
  }

  lemma TrimIsTrimmed(s: string)
    ensures Trimmed(TrimEnd(TrimStart(s)))
  {
    var t := s[Leading(s)..];
    var r := t[..|t| - Trailing(t)];
    if r != [] {
      assert r[0] == t[0];
      assert r[|r| - 1] == t[|t| - Trailing(t) - 1];
    }
  }

  lemma TrimCutsTrailing(s: string)
    ensures var r := TrimEnd(TrimStart(s));
            forall k :: Leading(s) + |r| <= k < |s| ==> IsJsSpace(s[k])
  {
    var i := Leading(s);
    var t := s[i..];
    var r := t[..|t| - Trailing(t)];
    forall k | i + |r| <= k < |s| ensures IsJsSpace(s[k]) {
      assert s[k] == t[k - i];
    }
  }

  /** `trim()` leaves nothing exactly when the string is all whitespace. */
  lemma TrimEmptyIffAllSpace(s: string)
    ensures Trim(s) == [] <==> AllSpace(s)
  {
  }

  /** `toLowerCase()` on one character, for the ASCII letters only. */
  function LowerChar(c: char): char {
    if 'A' <= c <= 'Z' then (c as int + 32) as char else c
  }

  predicate IsUpper(c: char) {
    'A' <= c <= 'Z'
  }

  /** `toLowerCase()`: every ASCII capital replaced by its small letter. */
  function ToLower(s: string): (r: string)
    ensures |r| == |s|
    ensures forall k :: 0 <= k < |r| ==> !IsUpper(r[k])
    ensures forall k :: 0 <= k < |s| && IsUpper(s[k]) ==> r[k] as int == s[k] as int + 32
    ensures forall k :: 0 <= k < |s| && !IsUpper(s[k]) ==> r[k] == s[k]
    ensures forall k :: 0 <= k < |s| ==> IsJsSpace(r[k]) == IsJsSpace(s[k])
  {
    seq(|s|, k requires 0 <= k < |s| => LowerChar(s[k]))
  }

  // ---------------------------------------------------------------------------
  // Query normalisation
  // ---------------------------------------------------------------------------

  /** What a normalised query looks like: no surrounding whitespace, no capitals. */
  predicate IsNormal(q: string) {
    Trimmed(q) && forall k :: 0 <= k < |q| ==> !IsUpper(q[k])
  }

  /** `input.trim().toLowerCase()`. */
  function Canonical(raw: string): (q: string)
    ensures IsNormal(q)
  {
    var t := Trim(raw);
    var q := ToLower(t);
    q
  }

  /** The guard and the normalisation in front of the lookup: only the literally
      empty input is rejected (`None`, the alert); anything else is trimmed and
      lower-cased, which may leave the empty query. */
  function Normalize(raw: string): (q: Option<string>)
    ensures q.None? <==> raw == ""
    ensures q.Some? ==> IsNormal(q.value) && |q.value| <= |raw|
  {
    if raw == "" then None else Some(Canonical(raw))
  }

  /** A normal query is its own normal form, so normalising twice is normalising once. */
  lemma CanonicalFixesNormal(q: string)
    requires IsNormal(q)
    ensures Canonical(q) == q
  {
    assert Leading(q) == 0 && Trailing(q) == 0;
  }

  lemma CanonicalIdempotent(raw: string)
    ensures Canonical(Canonical(raw)) == Canonical(raw)
  {
    CanonicalFixesNormal(Canonical(raw));
  }

  /** A non-empty input made only of whitespace passes the guard and becomes `""`. */
  lemma WhitespaceOnlyAccepted(raw: string)
    requires raw != "" && AllSpace(raw)
    ensures Normalize(raw) == Some("")
  {
    TrimEmptyIffAllSpace(raw);
  }
}
