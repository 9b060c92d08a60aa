/**
 * `postAdminEnvSetting`: the `.env` text with, for each of a fixed list of
 * keys, the first line that starts with `KEY=` replaced by `KEY=<value>`,
 * the way `text.replace(/^KEY=.*\/m, ...)` does it.
 */
module EnvFile {
  import opened Wrappers
  import opened Js
  import opened Seqs

  /** The keys the handler rewrites, in the order of its replace chain. */
  const EnvKeys: seq<string> := [
    "MAIL_DRIVER", "MAIL_HOST", "MAIL_PORT", "MAIL_USERNAME", "MAIL_PASSWORD",
    "MAIL_ENCRYPTION", "MAIL_FROM_ADDRESS", "MAIL_FROM_NAME", "MAILGUN_DOMAIN",
    "MAILGUN_SECRET", "GOOGLE_CLIENT_ID", "GOOGLE_CLIENT_SECRET", "FACEBOOK_CLIENT_ID",
    "FACEBOOK_CLIENT_SECRET", "TWITTER_CLIENT_ID", "TWITTER_CLIENT_SECRET",
    "SIGN_IN_WITH_APPLE_LOGIN", "SIGN_IN_WITH_APPLE_CLIENT_ID", "SIGN_IN_WITH_APPLE_CLIENT_SECRET"]

  /** Read from the body with the others, but no replace in the chain mentions it. */
  const AppleRedirect: string := "SIGN_IN_WITH_APPLE_REDIRECT"

  /** A key as it can appear in a `KEY=` pattern: no `=` and no line break. */
  predicate PlainKey(key: string) {
    '=' !in key && NoneOf(key, LineTerminators)
  }

  predicate DistinctKeys(keys: seq<string>) {
    forall i, j :: 0 <= i < j < |keys| ==> keys[i] != keys[j]
  }

  /** The characters the listed keys are written with. */
  predicate KeyChar(ch: char) {
    'A' <= ch <= 'Z' || ch == '_'
  }

  predicate KeyChars(key: string) {
    forall i :: 0 <= i < |key| ==> KeyChar(key[i])
  }

  lemma KeyCharsArePlain(key: string)
    requires KeyChars(key)
    ensures PlainKey(key)
  {
  }

  /** The keys in index range [lo, hi) are written with capitals and underscores only. */
  predicate KeyCharsIn(lo: nat, hi: nat)
    requires lo <= hi <= |EnvKeys|
  {
    forall i :: lo <= i < hi ==> KeyChars(EnvKeys[i])
  }

  // One fact about the constant key list, checked a few keys at a time: a single
  // quantifier over all 19 keys makes the solver unfold every literal at once.
  lemma EnvKeyChars0() ensures KeyCharsIn(0, 3) {
    forall i | 0 <= i < 3 ensures KeyChars(EnvKeys[i]) {}
  }

  lemma EnvKeyChars1() ensures KeyCharsIn(3, 6) {
    forall i | 3 <= i < 6 ensures KeyChars(EnvKeys[i]) {}
  }

  lemma EnvKeyChars2() ensures KeyCharsIn(6, 9) {
    forall i | 6 <= i < 9 ensures KeyChars(EnvKeys[i]) {}
  }

  lemma EnvKeyChars3() ensures KeyCharsIn(9, 12) {
    forall i | 9 <= i < 12 ensures KeyChars(EnvKeys[i]) {}
  }

  lemma EnvKeyChars4() ensures KeyCharsIn(12, 15) {
    forall i | 12 <= i < 15 ensures KeyChars(EnvKeys[i]) {}
  }

  lemma EnvKeyChars5() ensures KeyCharsIn(15, 17) {
    forall i | 15 <= i < 17 ensures KeyChars(EnvKeys[i]) {}
  }

  lemma EnvKeyChars6() ensures KeyCharsIn(17, 19) {
    forall i | 17 <= i < 19 ensures KeyChars(EnvKeys[i]) {}
  }

  /** No listed key contains `=` or a line break. */
  lemma EnvKeysPlain()
    ensures forall k :: k in EnvKeys ==> PlainKey(k)
  {
    EnvKeyChars0();
    EnvKeyChars1();
    EnvKeyChars2();
    EnvKeyChars3();
    EnvKeyChars4();
    EnvKeyChars5();
    EnvKeyChars6();
    forall k | k in EnvKeys ensures PlainKey(k) {
      var i :| 0 <= i < |EnvKeys| && EnvKeys[i] == k;
      KeyCharsArePlain(k);
    }
  }

  /** The 19 listed keys are distinct, and the redirect key is not among them. */
  lemma EnvKeysDistinct()
    ensures |EnvKeys| == 19
    ensures DistinctKeys(EnvKeys)
  {
    EnvKeysDistinctFrom(0, 4);
    EnvKeysDistinctFrom(4, 8);
    EnvKeysDistinctFrom(8, 12);
    EnvKeysDistinctFrom(12, 16);
    EnvKeysDistinctFrom(16, 19);
  }

  /** The keys at indices [lo, hi) differ from every later key. */
  predicate DistinctFrom(lo: nat, hi: nat)
    requires lo <= hi <= |EnvKeys|
  {
    forall i, j :: lo <= i < hi && i < j < |EnvKeys| ==> EnvKeys[i] != EnvKeys[j]
  }

  lemma EnvKeysDistinctFrom(lo: nat, hi: nat)
    requires lo <= hi <= |EnvKeys| && hi - lo <= 4
    ensures DistinctFrom(lo, hi)
  {
    forall i, j | lo <= i < hi && i < j < |EnvKeys| ensures EnvKeys[i] != EnvKeys[j] {
    }
  }

  lemma AppleRedirectUnlisted()
    ensures PlainKey(AppleRedirect) && AppleRedirect !in EnvKeys
  {
    assert KeyChars(AppleRedirect);
  }

  // ---------------------------------------------------------------------------
  // The regular expression /^KEY=.*/m

  /** `^` in multiline mode: the start of the text or just after a line terminator. */
  predicate LineStart(c: string, i: nat)
    requires i <= |c|
  {
    i == 0 || c[i - 1] in LineTerminators
  }

  /** The pattern occurs in the text at position i. */
  predicate OccursAt(c: string, pat: string, i: nat) {
    i + |pat| <= |c| && forall j :: 0 <= j < |pat| ==> c[i + j] == pat[j]
  }

  /** `^pat` matches at i: a line start where the pattern occurs. */
  predicate MatchAt(c: string, pat: string, i: nat)
    requires i <= |c|
  {
    LineStart(c, i) && OccursAt(c, pat, i)
  }

  /** An occurrence at i is the pattern being a prefix of the text from i on. */
  lemma OccursAtIsPrefix(c: string, pat: string, i: nat)
    requires i <= |c|
    ensures OccursAt(c, pat, i) <==> pat <= c[i..]
  {
    if OccursAt(c, pat, i) {
      forall j | 0 <= j < |pat| ensures c[i..][j] == pat[j] {
        assert c[i..][j] == c[i + j];
      }
    }
    if pat <= c[i..] {
      forall j | 0 <= j < |pat| ensures c[i + j] == pat[j] {
        assert c[i..][j] == c[i + j];
      }
    }
  }

  /** The leftmost position at or after i where `^pat` matches. */
  function FindFrom(c: string, pat: string, i: nat): (r: Option<nat>)
    requires i <= |c|
    ensures r.Some? ==> i <= r.value <= |c| && MatchAt(c, pat, r.value)
    decreases |c| - i
  {
    if MatchAt(c, pat, i) then Some(i)
    else if i == |c| then None
    else FindFrom(c, pat, i + 1)
  }

  /** The search finds the leftmost match, and finds none only when there is none. */
  lemma {:induction false} FindFromLeftmost(c: string, pat: string, i: nat)
    requires i <= |c|
    ensures FindFrom(c, pat, i).Some? ==> forall q :: i <= q < FindFrom(c, pat, i).value ==> !MatchAt(c, pat, q)
    ensures FindFrom(c, pat, i).None? ==> forall q :: i <= q <= |c| ==> !MatchAt(c, pat, q)
    decreases |c| - i
  {
    if !MatchAt(c, pat, i) && i < |c| {
      FindFromLeftmost(c, pat, i + 1);
    }
  }

  /** Where `.*` stops: the first line terminator at or after i, or the end of the text. */
  function LineEnd(c: string, i: nat): (e: nat)
    requires i <= |c|
    ensures i <= e <= |c|
    decreases |c| - i
  {
    if i == |c| || c[i] in LineTerminators then i else LineEnd(c, i + 1)
  }

  /** `.*` runs over no line terminator and stops at one or at the end of the text. */
  lemma {:induction false} LineEndStops(c: string, i: nat)
    requires i <= |c|
    ensures forall k :: i <= k < LineEnd(c, i) ==> c[k] !in LineTerminators
    ensures LineEnd(c, i) < |c| ==> c[LineEnd(c, i)] in LineTerminators
    decreases |c| - i
  {
    if i < |c| && c[i] !in LineTerminators {
      LineEndStops(c, i + 1);
    }
  }

  /** The text with the part from p up to e replaced by `mid`. */
  function Splice(c: string, p: nat, e: nat, mid: string): string
    requires p <= e <= |c|
  {
    c[..p] + mid + c[e..]
  }

  /** The replace of a match at p: from p through the end of that line, the text becomes `mid`. */
  function ReplaceAt(c: string, pat: string, mid: string, p: nat): string
    requires p + |pat| <= |c|
  {
    Splice(c, p, LineEnd(c, p + |pat|), mid)
  }

  /** `c.replace(/^pat.*\/m, mid)`: the leftmost match is replaced; with none, the text is kept. */
  function ReplaceMatch(c: string, pat: string, mid: string): string {
    var m := FindFrom(c, pat, 0);
    if m.None? then c else ReplaceAt(c, pat, mid, m.value)
  }

  /** `c.replace(/^KEY=.*\/m, `KEY=${value}`)`. */
  function ReplaceKeyLine(c: string, key: string, value: string): string {
    ReplaceMatch(c, key + "=", key + "=" + value)
  }

  /** The whole chain of replaces, one key after another. */
  function RewriteKeys(c: string, body: map<string, JsValue>, keys: seq<string>): string
    decreases |keys|
  {
    if keys == [] then c
    else RewriteKeys(ReplaceKeyLine(c, keys[0], ToText(Get(body, keys[0]))), body, keys[1..])
  }

  /** The new `.env` text: each listed key's body value, as template-literal text. */
  function RewriteEnv(c: string, body: map<string, JsValue>): string {
    RewriteKeys(c, body, EnvKeys)
  }

  // ---------------------------------------------------------------------------
  // Facts about the character-level search

  /** The search result is determined by its contract: the least match, or none. */
  lemma FindFromIs(c: string, pat: string, i: nat, r: Option<nat>)
    requires i <= |c|
    requires r.Some? ==> i <= r.value <= |c| && MatchAt(c, pat, r.value)
                         && forall q :: i <= q < r.value ==> !MatchAt(c, pat, q)
    requires r.None? ==> forall q :: i <= q <= |c| ==> !MatchAt(c, pat, q)
    ensures FindFrom(c, pat, i) == r
  {
    FindFromLeftmost(c, pat, i);
    var f := FindFrom(c, pat, i);
    assert f.Some? ==> MatchAt(c, pat, f.value);
    assert r.Some? ==> MatchAt(c, pat, r.value);
  }

  /** The line end is determined by its contract. */
  lemma {:induction false} LineEndIs(c: string, i: nat, e: nat)
    requires i <= e <= |c|
    requires forall k :: i <= k < e ==> c[k] !in LineTerminators
    requires e < |c| ==> c[e] in LineTerminators
    ensures LineEnd(c, i) == e
    decreases e - i
  {
    if i < e {
      LineEndIs(c, i + 1, e);
    }
  }

  /** `KEY=` has no line break when the key has none. */
  lemma PatternIsPlain(key: string)
    requires PlainKey(key)
    ensures NoneOf(key + "=", LineTerminators)
  {
    var pat := key + "=";
    forall k | 0 <= k < |pat| ensures pat[k] !in LineTerminators {
      if k < |key| { assert pat[k] == key[k]; }
    }
  }

  /** A pattern without line breaks is a prefix of a text exactly when it is one of the text's first line. */
  lemma PrefixOfFirstLine(pat: string, line: string, t: char, rest: string)
    requires NoneOf(pat, LineTerminators) && NoneOf(line, LineTerminators) && t in LineTerminators
    ensures pat <= line + [t] + rest <==> pat <= line
  {
    var c := line + [t] + rest;
    assert c[..|line|] == line;
    assert c[|line|] == t;
  }

  /** A text with no line break has one line start, its beginning. */
  lemma ReplaceSingleLine(c: string, pat: string, mid: string)
    requires NoneOf(c, LineTerminators)
    ensures ReplaceMatch(c, pat, mid) == if pat <= c then mid else c
  {
    OccursAtIsPrefix(c, pat, 0);
    if pat <= c {
      FoundAtStart(c, pat);
      ReplaceMatchAt(c, pat, mid, 0);
      LineEndIs(c, |pat|, |c|);
      assert c[|c|..] == [];
    } else {
      forall q | 0 < q <= |c| ensures !LineStart(c, q) {
        assert c[q - 1] !in LineTerminators;
      }
      FindFromIs(c, pat, 0, None);
    }
  }

  /** The replace, given where the leftmost match is. */
  lemma ReplaceMatchAt(c: string, pat: string, mid: string, p: nat)
    requires FindFrom(c, pat, 0) == Some(p)
    ensures p + |pat| <= |c|
    ensures ReplaceMatch(c, pat, mid) == ReplaceAt(c, pat, mid, p)
  {
  }

  /** A first line that starts with the pattern is the one replaced. */
  lemma ReplaceInFirstLine(line: string, t: char, rest: string, pat: string, mid: string)
    requires NoneOf(line, LineTerminators) && t in LineTerminators && NoneOf(pat, LineTerminators)
    requires pat <= line
    ensures ReplaceMatch(line + [t] + rest, pat, mid) == mid + [t] + rest
  {
    PrefixOfFirstLine(pat, line, t, rest);
    FoundAtStart(line + [t] + rest, pat);
    ReplaceMatchAt(line + [t] + rest, pat, mid, 0);
    FoundInFirstLine(line, t, rest, pat, mid);
  }

  /** A pattern that starts the text is found at once. */
  lemma FoundAtStart(c: string, pat: string)
    requires pat <= c
    ensures FindFrom(c, pat, 0) == Some(0)
  {
    OccursAtIsPrefix(c, pat, 0);
    assert MatchAt(c, pat, 0);
  }

  /** From inside the first line, `.*` stops at the first line break. */
  lemma LineEndOfFirstLine(line: string, t: char, rest: string, i: nat)
    requires NoneOf(line, LineTerminators) && t in LineTerminators && i <= |line|
    ensures LineEnd(line + [t] + rest, i) == |line|
  {
    var c := line + [t] + rest;
    forall k | i <= k < |line| ensures c[k] !in LineTerminators {
      assert c[k] == line[k];
    }
    LineEndIs(c, i, |line|);
  }

  /** A match at the start of the first line replaces that whole line. */
  lemma FoundInFirstLine(line: string, t: char, rest: string, pat: string, mid: string)
    requires NoneOf(line, LineTerminators) && t in LineTerminators && |pat| <= |line|
    ensures ReplaceAt(line + [t] + rest, pat, mid, 0) == mid + [t] + rest
  {
    LineEndOfFirstLine(line, t, rest, |pat|);
    SpliceFirstLine(line, t, rest, mid);
  }

  /** Replacing the whole first line. */
  lemma SpliceFirstLine(line: string, t: char, rest: string, mid: string)
    ensures Splice(line + [t] + rest, 0, |line|, mid) == mid + [t] + rest
  {
    assert (line + [t] + rest)[|line|..] == [t] + rest;
  }

  /** A first line that does not start with the pattern is kept, and the search goes on after it. */
  lemma ReplaceAfterFirstLine(line: string, t: char, rest: string, pat: string, mid: string)
    requires NoneOf(line, LineTerminators) && t in LineTerminators && NoneOf(pat, LineTerminators)
    requires !(pat <= line)
    ensures ReplaceMatch(line + [t] + rest, pat, mid) == line + [t] + ReplaceMatch(rest, pat, mid)
  {
    FindAfterFirstLine(line, t, rest, pat);
    var m := FindFrom(rest, pat, 0);
    if m.Some? {
      ReplaceShiftedMatch(line, t, rest, pat, mid, m.value);
    }
  }

  /** ReplaceAfterFirstLine when the leftmost match is at p in the rest. */
  lemma ReplaceShiftedMatch(line: string, t: char, rest: string, pat: string, mid: string, p: nat)
    requires FindFrom(rest, pat, 0) == Some(p)
    requires FindFrom(line + [t] + rest, pat, 0) == Some(|line| + 1 + p)
    ensures ReplaceMatch(line + [t] + rest, pat, mid) == line + [t] + ReplaceMatch(rest, pat, mid)
  {
    ReplaceMatchAt(rest, pat, mid, p);
    ReplaceMatchAt(line + [t] + rest, pat, mid, |line| + 1 + p);
    FoundShifted(line, t, rest, pat, mid, p);
  }

  /** A match after the first line break is replaced as in the rest, shifted. */
  lemma FoundShifted(line: string, t: char, rest: string, pat: string, mid: string, p: nat)
    requires p + |pat| <= |rest|
    ensures ReplaceAt(line + [t] + rest, pat, mid, |line| + 1 + p) == line + [t] + ReplaceAt(rest, pat, mid, p)
  {
    LineEndAfterFirstLine(line, t, rest, p, |pat|);
    SpliceShifted(line, t, rest, p, LineEnd(rest, p + |pat|), mid);
  }

  /** Splicing into the text after the first line break is splicing into the rest. */
  lemma SpliceShifted(line: string, t: char, rest: string, p: nat, e: nat, mid: string)
    requires p <= e <= |rest|
    ensures Splice(line + [t] + rest, |line| + 1 + p, |line| + 1 + e, mid) == line + [t] + Splice(rest, p, e, mid)
  {
    var a := line + [t];
    assert (a + rest)[..|a| + p] == a + rest[..p];
    assert (a + rest)[|a| + e..] == rest[e..];
    assert a + rest[..p] + mid + rest[e..] == a + (rest[..p] + mid + rest[e..]);
  }

  /** Past a first line that does not start with the pattern, the search is the search in the rest, shifted. */
  lemma FindAfterFirstLine(line: string, t: char, rest: string, pat: string)
    requires NoneOf(line, LineTerminators) && t in LineTerminators && NoneOf(pat, LineTerminators)
    requires !(pat <= line)
    ensures FindFrom(rest, pat, 0).None? ==> FindFrom(line + [t] + rest, pat, 0).None?
    ensures FindFrom(rest, pat, 0).Some? ==>
      FindFrom(line + [t] + rest, pat, 0) == Some(|line| + 1 + FindFrom(rest, pat, 0).value)
  {
    FindAfterFirstLineFrom(line, t, rest, pat, 0);
  }

  /** FindAfterFirstLine, for a search that starts anywhere in the first line. */
  lemma FindAfterFirstLineFrom(line: string, t: char, rest: string, pat: string, j: nat)
    requires NoneOf(line, LineTerminators) && t in LineTerminators && NoneOf(pat, LineTerminators)
    requires !(pat <= line) && j <= |line|
    ensures FindFrom(line + [t] + rest, pat, j) ==
      if FindFrom(rest, pat, 0).Some? then Some(|line| + 1 + FindFrom(rest, pat, 0).value) else None
  {
    SkipFirstLine(line, t, rest, pat, j);
    FindShifted(line, t, rest, pat, 0, |line| + 1);
  }

  /** A search that starts in a first line without a match goes on from the next line. */
  lemma SkipFirstLine(line: string, t: char, rest: string, pat: string, j: nat)
    requires NoneOf(line, LineTerminators) && t in LineTerminators && NoneOf(pat, LineTerminators)
    requires !(pat <= line) && j <= |line|
    ensures FindFrom(line + [t] + rest, pat, j) == FindFrom(line + [t] + rest, pat, |line| + 1)
  {
    NoMatchInFirstLine(line, t, rest, pat);
    FindSkip(line + [t] + rest, pat, j, |line| + 1);
  }

  /** Positions that do not match are skipped by the search. */
  lemma {:induction false} FindSkip(c: string, pat: string, i: nat, j: nat)
    requires i <= j <= |c|
    requires forall q :: i <= q < j ==> !MatchAt(c, pat, q)
    ensures FindFrom(c, pat, i) == FindFrom(c, pat, j)
    decreases j - i
  {
    if i < j {
      FindSkip(c, pat, i + 1, j);
    }
  }

  /** From a position past the first line break on, the search is the search in the rest, shifted. */
  lemma {:induction false} FindShifted(line: string, t: char, rest: string, pat: string, i: nat, p: nat)
    requires t in LineTerminators && i <= |rest| && p == |line| + 1 + i
    ensures FindFrom(line + [t] + rest, pat, p) ==
      if FindFrom(rest, pat, i).Some? then Some(|line| + 1 + FindFrom(rest, pat, i).value) else None
    decreases |rest| - i
  {
    MatchAfterFirstLine(line, t, rest, pat, i);
    if !MatchAt(rest, pat, i) && i < |rest| {
      FindShifted(line, t, rest, pat, i + 1, p + 1);
    }
  }

  /** Inside a first line that does not start with the pattern nothing matches. */
  lemma NoMatchInFirstLine(line: string, t: char, rest: string, pat: string)
    requires NoneOf(line, LineTerminators) && t in LineTerminators && NoneOf(pat, LineTerminators)
    requires !(pat <= line)
    ensures forall q :: 0 <= q <= |line| ==> !MatchAt(line + [t] + rest, pat, q)
  {
    var c := line + [t] + rest;
    PrefixOfFirstLine(pat, line, t, rest);
    OccursAtIsPrefix(c, pat, 0);
    forall q | 0 < q <= |line| ensures !LineStart(c, q) {
      assert c[q - 1] == line[q - 1];
    }
  }

  /** A position after the first line break matches exactly when the same position of the rest does. */
  lemma MatchAfterFirstLine(line: string, t: char, rest: string, pat: string, q: nat)
    requires t in LineTerminators && q <= |rest|
    ensures MatchAt(line + [t] + rest, pat, |line| + 1 + q) <==> MatchAt(rest, pat, q)
  {
    var c := line + [t] + rest;
    var off := |line| + 1;
    assert c[off + q - 1] == if q == 0 then t else rest[q - 1];
    if OccursAt(rest, pat, q) {
      forall j | 0 <= j < |pat| ensures c[off + q + j] == pat[j] {
        assert c[off + q + j] == rest[q + j];
      }
    }
    if OccursAt(c, pat, off + q) {
      forall j | 0 <= j < |pat| ensures rest[q + j] == pat[j] {
        assert c[off + q + j] == rest[q + j];
      }
    }
  }

  /** Past the first line break, line ends are those of the rest, shifted. */
  lemma LineEndAfterFirstLine(line: string, t: char, rest: string, p: nat, n: nat)
    requires p + n <= |rest|
    ensures LineEnd(line + [t] + rest, |line| + 1 + p + n) == |line| + 1 + LineEnd(rest, p + n)
  {
    var c := line + [t] + rest;
    var off := |line| + 1;
    var i := p + n;
    var e := LineEnd(rest, i);
    LineEndStops(rest, i);
    forall k | off + i <= k < off + e ensures c[k] !in LineTerminators {
      assert c[k] == rest[k - off];
    }
    assert off + e < |c| ==> c[off + e] == rest[e];
    LineEndIs(c, off + i, off + e);
  }

  // ---------------------------------------------------------------------------
  // The same operation on lines

  /** The lines of a text: the pieces between line terminators. */
  function Lines(s: string): (r: seq<string>)
    ensures |r| >= 1
  {
    Split(s, LineTerminators)
  }

  predicate StartsWithKey(line: string, key: string) {
    key + "=" <= line
  }

  /** The first line that starts with `KEY=` becomes `KEY=value`; every other line stays. */
  function ReplaceFirstLine(lines: seq<string>, key: string, value: string): (r: seq<string>)
    ensures |r| == |lines|
  {
    if lines == [] then []
    else if StartsWithKey(lines[0], key) then [key + "=" + value] + lines[1..]
    else [lines[0]] + ReplaceFirstLine(lines[1..], key, value)
  }

  function RewriteLines(lines: seq<string>, body: map<string, JsValue>, keys: seq<string>): (r: seq<string>)
    ensures |r| == |lines|
    decreases |keys|
  {
    if keys == [] then lines
    else RewriteLines(ReplaceFirstLine(lines, keys[0], ToText(Get(body, keys[0]))), body, keys[1..])
  }

  /** The lines of a text that continues past its first line break. */
  lemma LinesCons(line: string, t: char, rest: string)
    requires NoneOf(line, LineTerminators) && t in LineTerminators
    ensures Lines(line + [t] + rest) == [line] + Lines(rest)
  {
    SplitAtSeparator(line, t, rest, LineTerminators);
    SplitWithoutSeparator(line, LineTerminators);
  }

  /** No line break in either part, none in the whole. */
  lemma PlainAppend(x: string, y: string)
    requires NoneOf(x, LineTerminators) && NoneOf(y, LineTerminators)
    ensures NoneOf(x + y, LineTerminators)
  {
    forall k | 0 <= k < |x + y| ensures (x + y)[k] !in LineTerminators {
      if k < |x| { assert (x + y)[k] == x[k]; } else { assert (x + y)[k] == y[k - |x|]; }
    }
  }

  /** No line starts with `KEY=`. */
  predicate NoKeyLine(lines: seq<string>, key: string) {
    forall i :: 0 <= i < |lines| ==> !StartsWithKey(lines[i], key)
  }

  /**
   * On lines, the regular-expression replace is exactly "replace the first
   * line that starts with KEY=", provided the new value brings no line break
   * of its own; and when no line starts with KEY= the text is unchanged.
   */
  lemma {:induction false} LinesOfReplace(c: string, key: string, value: string)
    requires PlainKey(key)
    ensures NoneOf(value, LineTerminators) ==>
      Lines(ReplaceKeyLine(c, key, value)) == ReplaceFirstLine(Lines(c), key, value)
    ensures NoKeyLine(Lines(c), key) ==> ReplaceKeyLine(c, key, value) == c
    decreases |c|
  {
    var j := LineEnd(c, 0);
    LineEndStops(c, 0);
    if j == |c| {
      assert NoneOf(c, LineTerminators);
      LinesOfReplaceOneLine(c, key, value);
    } else {
      var line, t, rest := c[..j], c[j], c[j + 1..];
      assert c == line + [t] + rest;
      assert NoneOf(line, LineTerminators);
      if key + "=" <= line {
        LinesOfReplaceFirstLine(line, t, rest, key, value);
      } else {
        LinesOfReplace(rest, key, value);
        LinesOfReplaceLaterLine(line, t, rest, key, value);
      }
    }
  }

  /** LinesOfReplace for a text of one line. */
  lemma LinesOfReplaceOneLine(c: string, key: string, value: string)
    requires PlainKey(key) && NoneOf(c, LineTerminators)
    ensures NoneOf(value, LineTerminators) ==>
      Lines(ReplaceKeyLine(c, key, value)) == ReplaceFirstLine(Lines(c), key, value)
    ensures NoKeyLine(Lines(c), key) ==> ReplaceKeyLine(c, key, value) == c
  {
    var pat := key + "=";
    PatternIsPlain(key);
    SplitWithoutSeparator(c, LineTerminators);
    ReplaceSingleLine(c, pat, pat + value);
    if NoneOf(value, LineTerminators) && pat <= c {
      PlainAppend(pat, value);
      SplitWithoutSeparator(pat + value, LineTerminators);
    }
  }

  /** LinesOfReplace when the first line is the key's line. */
  lemma LinesOfReplaceFirstLine(line: string, t: char, rest: string, key: string, value: string)
    requires PlainKey(key) && NoneOf(line, LineTerminators) && t in LineTerminators
    requires key + "=" <= line
    ensures NoneOf(value, LineTerminators) ==>
      Lines(ReplaceKeyLine(line + [t] + rest, key, value)) == ReplaceFirstLine(Lines(line + [t] + rest), key, value)
    ensures !NoKeyLine(Lines(line + [t] + rest), key)
  {
    var pat := key + "=";
    PatternIsPlain(key);
    LinesCons(line, t, rest);
    ReplaceInFirstLine(line, t, rest, pat, pat + value);
    if NoneOf(value, LineTerminators) {
      PlainAppend(pat, value);
      LinesCons(pat + value, t, rest);
    }
    assert Lines(line + [t] + rest)[0] == line;
  }

  /** LinesOfReplace when the first line is not the key's line, from LinesOfReplace on the rest. */
  lemma LinesOfReplaceLaterLine(line: string, t: char, rest: string, key: string, value: string)
    requires PlainKey(key) && NoneOf(line, LineTerminators) && t in LineTerminators
    requires !(key + "=" <= line)
    requires NoneOf(value, LineTerminators) ==>
      Lines(ReplaceKeyLine(rest, key, value)) == ReplaceFirstLine(Lines(rest), key, value)
    requires NoKeyLine(Lines(rest), key) ==> ReplaceKeyLine(rest, key, value) == rest
    ensures NoneOf(value, LineTerminators) ==>
      Lines(ReplaceKeyLine(line + [t] + rest, key, value)) == ReplaceFirstLine(Lines(line + [t] + rest), key, value)
    ensures NoKeyLine(Lines(line + [t] + rest), key) ==> ReplaceKeyLine(line + [t] + rest, key, value) == line + [t] + rest
  {
    PatternIsPlain(key);
    LinesCons(line, t, rest);
    ReplaceAfterFirstLine(line, t, rest, key + "=", key + "=" + value);
    var r := ReplaceKeyLine(rest, key, value);
    if NoneOf(value, LineTerminators) {
      LinesCons(line, t, r);
      assert ([line] + Lines(rest))[1..] == Lines(rest);
    }
    if NoKeyLine(Lines(line + [t] + rest), key) {
      forall i | 0 <= i < |Lines(rest)| ensures !StartsWithKey(Lines(rest)[i], key) {
        assert Lines(rest)[i] == Lines(line + [t] + rest)[i + 1];
      }
    }
  }

  /** The replace chain on the text is the replace chain on its lines. */
  lemma {:induction false} LinesOfRewrite(c: string, body: map<string, JsValue>, keys: seq<string>)
    requires forall k :: k in keys ==> PlainKey(k) && NoneOf(ToText(Get(body, k)), LineTerminators)
    ensures Lines(RewriteKeys(c, body, keys)) == RewriteLines(Lines(c), body, keys)
    decreases |keys|
  {
    if keys != [] {
      var k := keys[0];
      LinesOfReplace(c, k, ToText(Get(body, k)));
      LinesOfRewrite(ReplaceKeyLine(c, k, ToText(Get(body, k))), body, keys[1..]);
    }
  }

  /** When no line starts with any of the keys, the chain returns the text unchanged. */
  lemma {:induction false} RewriteWithoutKeyLines(c: string, body: map<string, JsValue>, keys: seq<string>)
    requires forall k :: k in keys ==> PlainKey(k)
    requires forall i, k :: 0 <= i < |Lines(c)| && k in keys ==> !StartsWithKey(Lines(c)[i], k)
    ensures RewriteKeys(c, body, keys) == c
    decreases |keys|
  {
    if keys != [] {
      var k := keys[0];
      assert k in keys;
      LinesOfReplace(c, k, ToText(Get(body, k)));
      assert forall x :: x in keys[1..] ==> x in keys;
      RewriteWithoutKeyLines(c, body, keys[1..]);
    }
  }

  // ---------------------------------------------------------------------------
  // Which line each key's replace touches

  /** Line i is the first line starting with `KEY=`. */
  predicate IsFirstWith(lines: seq<string>, key: string, i: int)
    requires 0 <= i < |lines|
  {
    StartsWithKey(lines[i], key) && forall j :: 0 <= j < i ==> !StartsWithKey(lines[j], key)
  }

  /** Index of the first `=` in a text, or its length when it has none. */
  function FirstEquals(s: string): (n: nat)
    ensures n <= |s|
  {
    if s == [] || s[0] == '=' then 0 else 1 + FirstEquals(s[1..])
  }

  /** A line that starts with `KEY=`, for a key without `=`, has its first `=` right after the key. */
  lemma {:induction false} KeyEndsAtFirstEquals(s: string, key: string)
    requires '=' !in key && StartsWithKey(s, key)
    ensures FirstEquals(s) == |key| && s[..|key|] == key
  {
    if key != [] {
      assert s[0] == key[0];
      assert StartsWithKey(s[1..], key[1..]) by {
        assert (key + "=")[1..] == key[1..] + "=";
      }
      KeyEndsAtFirstEquals(s[1..], key[1..]);
      assert s[..|key|] == [s[0]] + s[1..][..|key| - 1];
      assert key == [key[0]] + key[1..];
    } else {
      assert s[0] == (key + "=")[0];
    }
  }

  /** Two keys without `=` cannot both begin the same line. */
  lemma ExclusiveKeys(s: string, k1: string, k2: string)
    requires '=' !in k1 && '=' !in k2
    requires StartsWithKey(s, k1) && StartsWithKey(s, k2)
    ensures k1 == k2
  {
    KeyEndsAtFirstEquals(s, k1);
    KeyEndsAtFirstEquals(s, k2);
  }

  /** The first line with the key is replaced and nothing else changes. */
  lemma {:induction false} ReplaceFirstLineAt(lines: seq<string>, key: string, value: string)
    ensures var r := ReplaceFirstLine(lines, key, value);
      forall i :: 0 <= i < |lines| ==> r[i] == if IsFirstWith(lines, key, i) then key + "=" + value else lines[i]
  {
    if lines != [] && !StartsWithKey(lines[0], key) {
      ReplaceFirstLineAt(lines[1..], key, value);
      var r := ReplaceFirstLine(lines, key, value);
      forall i | 1 <= i < |lines|
        ensures r[i] == if IsFirstWith(lines, key, i) then key + "=" + value else lines[i]
      {
        assert r[i] == ReplaceFirstLine(lines[1..], key, value)[i - 1];
        assert lines[i] == lines[1..][i - 1];
        FirstWithShifted(lines, key, i);
      }
    }
  }

  /** Past a first line without the key, being the first line with it is counted in the rest. */
  lemma FirstWithShifted(lines: seq<string>, key: string, i: nat)
    requires 1 <= i < |lines| && !StartsWithKey(lines[0], key)
    ensures IsFirstWith(lines, key, i) <==> IsFirstWith(lines[1..], key, i - 1)
  {
    assert forall j :: 1 <= j <= i ==> lines[j] == lines[1..][j - 1];
  }

  /** A replace keeps, line by line, which plain keys each line starts with. */
  lemma ReplaceKeepsStarts(lines: seq<string>, key: string, value: string, other: string)
    requires '=' !in key && '=' !in other
    ensures var r := ReplaceFirstLine(lines, key, value);
      forall i :: 0 <= i < |lines| ==> (StartsWithKey(r[i], other) <==> StartsWithKey(lines[i], other))
  {
    var r := ReplaceFirstLine(lines, key, value);
    ReplaceFirstLineAt(lines, key, value);
    forall i | 0 <= i < |lines| && IsFirstWith(lines, key, i)
      ensures StartsWithKey(r[i], other) <==> StartsWithKey(lines[i], other)
    {
      assert StartsWithKey(r[i], key) by { assert (key + "=" + value)[..|key| + 1] == key + "="; }
      if StartsWithKey(r[i], other) {
        ExclusiveKeys(r[i], key, other);
      }
      if StartsWithKey(lines[i], other) {
        ExclusiveKeys(lines[i], key, other);
      }
    }
  }

  /** Which line is the first to start with a key survives a replace for another plain key. */
  lemma FirstWithKept(lines: seq<string>, key: string, value: string, other: string, i: nat)
    requires '=' !in key && '=' !in other && i < |lines|
    ensures IsFirstWith(ReplaceFirstLine(lines, key, value), other, i) <==> IsFirstWith(lines, other, i)
  {
    ReplaceKeepsStarts(lines, key, value, other);
  }

  /** The line starts with none of the keys. */
  predicate NoKeyStarts(line: string, keys: seq<string>) {
    forall k :: k in keys ==> !StartsWithKey(line, k)
  }

  /** A line that starts with a key starts with no other listed key. */
  lemma OnlyKeyStarts(line: string, key: string, keys: seq<string>)
    requires '=' !in key && forall k :: k in keys ==> '=' !in k
    requires StartsWithKey(line, key) && key !in keys
    ensures NoKeyStarts(line, keys)
  {
    forall k | k in keys ensures !StartsWithKey(line, k) {
      if StartsWithKey(line, k) { ExclusiveKeys(line, key, k); }
    }
  }

  /** The first key of a list of distinct keys is not in its tail, and the tail is distinct. */
  lemma DistinctTail(keys: seq<string>)
    requires DistinctKeys(keys) && keys != []
    ensures keys[0] !in keys[1..] && DistinctKeys(keys[1..])
  {
    forall j | 0 <= j < |keys| - 1 ensures keys[1..][j] != keys[0] { assert keys[1..][j] == keys[j + 1]; }
  }

  /** After the chain, a line that starts with none of the keys is untouched. */
  lemma {:induction false} RewriteLinesKeepsOther(lines: seq<string>, body: map<string, JsValue>,
                                                   keys: seq<string>, i: nat)
    requires i < |lines| && NoKeyStarts(lines[i], keys)
    ensures RewriteLines(lines, body, keys)[i] == lines[i]
    decreases |keys|
  {
    if keys != [] {
      var k0, v0 := keys[0], ToText(Get(body, keys[0]));
      var l1 := ReplaceFirstLine(lines, k0, v0);
      ReplaceFirstLineAt(lines, k0, v0);
      assert k0 in keys;
      assert l1[i] == lines[i];
      assert forall x :: x in keys[1..] ==> x in keys;
      RewriteLinesKeepsOther(l1, body, keys[1..], i);
    }
  }

  /** After the chain, the first line that starts with a key holds that key's new value. */
  lemma {:induction false} RewriteLinesFirst(lines: seq<string>, body: map<string, JsValue>,
                                              keys: seq<string>, k: string, i: nat)
    requires DistinctKeys(keys) && forall x :: x in keys ==> '=' !in x
    requires i < |lines| && k in keys && IsFirstWith(lines, k, i)
    ensures RewriteLines(lines, body, keys)[i] == k + "=" + ToText(Get(body, k))
    decreases |keys|
  {
    var k0, v0 := keys[0], ToText(Get(body, keys[0]));
    var tail := keys[1..];
    var l1 := ReplaceFirstLine(lines, k0, v0);
    ReplaceFirstLineAt(lines, k0, v0);
    DistinctTail(keys);
    assert forall x :: x in tail ==> x in keys;
    assert k0 in keys;
    if k == k0 {
      assert StartsWithKey(l1[i], k0) by { assert (k0 + "=" + v0)[..|k0| + 1] == k0 + "="; }
      OnlyKeyStarts(l1[i], k0, tail);
      RewriteLinesKeepsOther(l1, body, tail, i);
    } else {
      assert k in tail;
      FirstWithKept(lines, k0, v0, k, i);
      RewriteLinesFirst(l1, body, tail, k, i);
    }
  }

  /** After the chain, a later line that starts with a key already seen above is untouched. */
  lemma {:induction false} RewriteLinesLater(lines: seq<string>, body: map<string, JsValue>,
                                              keys: seq<string>, k: string, i: nat)
    requires DistinctKeys(keys) && forall x :: x in keys ==> '=' !in x
    requires i < |lines| && k in keys && StartsWithKey(lines[i], k) && !IsFirstWith(lines, k, i)
    ensures RewriteLines(lines, body, keys)[i] == lines[i]
    decreases |keys|
  {
    var k0, v0 := keys[0], ToText(Get(body, keys[0]));
    var tail := keys[1..];
    var l1 := ReplaceFirstLine(lines, k0, v0);
    ReplaceFirstLineAt(lines, k0, v0);
    DistinctTail(keys);
    assert forall x :: x in tail ==> x in keys;
    assert k0 in keys;
    if k == k0 {
      assert l1[i] == lines[i];
      OnlyKeyStarts(lines[i], k0, tail);
      RewriteLinesKeepsOther(l1, body, tail, i);
    } else {
      assert !IsFirstWith(lines, k0, i) by {
        if IsFirstWith(lines, k0, i) { ExclusiveKeys(lines[i], k0, k); }
      }
      assert l1[i] == lines[i];
      assert k in tail;
      FirstWithKept(lines, k0, v0, k, i);
      RewriteLinesLater(l1, body, tail, k, i);
    }
  }

  /** The handler's rewrite, on lines, when no value brings a line break of its own. */
  lemma RewriteEnvAsLines(c: string, body: map<string, JsValue>)
    requires forall k :: k in EnvKeys ==> NoneOf(ToText(Get(body, k)), LineTerminators)
    ensures Lines(RewriteEnv(c, body)) == RewriteLines(Lines(c), body, EnvKeys)
    ensures |Lines(RewriteEnv(c, body))| == |Lines(c)|
  {
    EnvKeysPlain();
    LinesOfRewrite(c, body, EnvKeys);
  }

  /** Each listed key's first line in the `.env` text is rewritten to `KEY=<value>`. */
  lemma RewriteEnvFirstLine(c: string, body: map<string, JsValue>, k: string, i: nat)
    requires forall x :: x in EnvKeys ==> NoneOf(ToText(Get(body, x)), LineTerminators)
    requires i < |Lines(c)| && k in EnvKeys && IsFirstWith(Lines(c), k, i)
    ensures i < |Lines(RewriteEnv(c, body))|
    ensures Lines(RewriteEnv(c, body))[i] == k + "=" + ToText(Get(body, k))
  {
    RewriteEnvAsLines(c, body);
    EnvKeysPlain();
    EnvKeysDistinct();
    RewriteLinesFirst(Lines(c), body, EnvKeys, k, i);
  }

  /** A later line for a key already rewritten above is kept. */
  lemma RewriteEnvLaterLine(c: string, body: map<string, JsValue>, k: string, i: nat)
    requires forall x :: x in EnvKeys ==> NoneOf(ToText(Get(body, x)), LineTerminators)
    requires i < |Lines(c)| && k in EnvKeys && StartsWithKey(Lines(c)[i], k) && !IsFirstWith(Lines(c), k, i)
    ensures i < |Lines(RewriteEnv(c, body))|
    ensures Lines(RewriteEnv(c, body))[i] == Lines(c)[i]
  {
    RewriteEnvAsLines(c, body);
    EnvKeysPlain();
    EnvKeysDistinct();
    RewriteLinesLater(Lines(c), body, EnvKeys, k, i);
  }

  /** A line that starts with none of the listed keys is kept. */
  lemma RewriteEnvOtherLine(c: string, body: map<string, JsValue>, i: nat)
    requires forall x :: x in EnvKeys ==> NoneOf(ToText(Get(body, x)), LineTerminators)
    requires i < |Lines(c)| && NoKeyStarts(Lines(c)[i], EnvKeys)
    ensures i < |Lines(RewriteEnv(c, body))|
    ensures Lines(RewriteEnv(c, body))[i] == Lines(c)[i]
  {
    RewriteEnvAsLines(c, body);
    RewriteLinesKeepsOther(Lines(c), body, EnvKeys, i);
  }

  /** A `SIGN_IN_WITH_APPLE_REDIRECT=` line is kept whatever the body holds for it. */
  lemma RewriteEnvKeepsRedirect(c: string, body: map<string, JsValue>, i: nat)
    requires forall x :: x in EnvKeys ==> NoneOf(ToText(Get(body, x)), LineTerminators)
    requires i < |Lines(c)| && StartsWithKey(Lines(c)[i], AppleRedirect)
    ensures i < |Lines(RewriteEnv(c, body))|
    ensures Lines(RewriteEnv(c, body))[i] == Lines(c)[i]
  {
    EnvKeysPlain();
    AppleRedirectUnlisted();
    OnlyKeyStarts(Lines(c)[i], AppleRedirect, EnvKeys);
    RewriteEnvOtherLine(c, body, i);
  }

  /** Whatever the body holds, a `.env` text with no line for any listed key is written back unchanged. */
  lemma RewriteEnvWithoutKeyLines(c: string, body: map<string, JsValue>)
    requires forall i, k :: 0 <= i < |Lines(c)| && k in EnvKeys ==> !StartsWithKey(Lines(c)[i], k)
    ensures RewriteEnv(c, body) == c
  {
    EnvKeysPlain();
    RewriteWithoutKeyLines(c, body, EnvKeys);
  }

  // ---------------------------------------------------------------------------
  // The line breaks themselves

  /** A splice that removes no line break and inserts none keeps the text's line breaks. */
  lemma SpliceKeepsBreaks(c: string, p: nat, e: nat, mid: string)
    requires p <= e <= |c|
    requires NoneOf(c[p..e], LineTerminators) && NoneOf(mid, LineTerminators)
    ensures Separators(Splice(c, p, e, mid), LineTerminators) == Separators(c, LineTerminators)
  {
    ThreeParts(c, p, e);
    SeparatorsAround(c[..p], c[p..e], c[e..]);
    SeparatorsAround(c[..p], mid, c[e..]);
  }

  lemma ThreeParts(c: string, p: nat, e: nat)
    requires p <= e <= |c|
    ensures c == c[..p] + c[p..e] + c[e..]
  {
  }

  /** A middle part without line breaks contributes none. */
  lemma SeparatorsAround(a: string, x: string, b: string)
    requires NoneOf(x, LineTerminators)
    ensures Separators(a + x + b, LineTerminators) == Separators(a, LineTerminators) + Separators(b, LineTerminators)
  {
    SeparatorsAppend(a + x, b, LineTerminators);
    SeparatorsAppend(a, x, LineTerminators);
    SeparatorsNone(x, LineTerminators);
  }

  /** What a match replaces, from the pattern through the end of its line, holds no line break. */
  lemma MatchedLineIsPlain(c: string, pat: string, p: nat)
    requires OccursAt(c, pat, p) && NoneOf(pat, LineTerminators)
    ensures NoneOf(c[p..LineEnd(c, p + |pat|)], LineTerminators)
  {
    var e := LineEnd(c, p + |pat|);
    LineEndStops(c, p + |pat|);
    forall k | 0 <= k < e - p ensures c[p..e][k] !in LineTerminators {
      assert c[p..e][k] == c[p + k];
      if k < |pat| { assert c[p + k] == pat[k]; }
    }
  }

  /** One replace keeps every line break of the text, in order, whatever line it rewrites. */
  lemma ReplaceKeepsBreaks(c: string, key: string, value: string)
    requires PlainKey(key) && NoneOf(value, LineTerminators)
    ensures Separators(ReplaceKeyLine(c, key, value), LineTerminators) == Separators(c, LineTerminators)
  {
    var pat := key + "=";
    var mid := key + "=" + value;
    var m := FindFrom(c, pat, 0);
    if m.Some? {
      var p := m.value;
      PatternIsPlain(key);
      PlainAppend(pat, value);
      ReplaceMatchAt(c, pat, mid, p);
      MatchedLineIsPlain(c, pat, p);
      SpliceKeepsBreaks(c, p, LineEnd(c, p + |pat|), mid);
    }
  }

  /** The chain of replaces keeps every line break of the text, in order. */
  lemma {:induction false} RewriteKeysKeepsBreaks(c: string, body: map<string, JsValue>, keys: seq<string>)
    requires forall k :: k in keys ==> PlainKey(k) && NoneOf(ToText(Get(body, k)), LineTerminators)
    ensures Separators(RewriteKeys(c, body, keys), LineTerminators) == Separators(c, LineTerminators)
    decreases |keys|
  {
    if keys != [] {
      var k := keys[0];
      var next := ReplaceKeyLine(c, k, ToText(Get(body, k)));
      ReplaceKeepsBreaks(c, k, ToText(Get(body, k)));
      RewriteKeysKeepsBreaks(next, body, keys[1..]);
    }
  }

  /**
   * The handler's rewrite, character for character: the rewritten lines with
   * the original text's line breaks (`\n`, `\r`, ...) put back between them,
   * so no break is added, dropped or changed into another.
   */
  lemma RewriteEnvText(c: string, body: map<string, JsValue>)
    requires forall k :: k in EnvKeys ==> NoneOf(ToText(Get(body, k)), LineTerminators)
    ensures Separators(RewriteEnv(c, body), LineTerminators) == Separators(c, LineTerminators)
    ensures |RewriteLines(Lines(c), body, EnvKeys)| == |Separators(c, LineTerminators)| + 1
    ensures RewriteEnv(c, body) == Interleave(RewriteLines(Lines(c), body, EnvKeys), Separators(c, LineTerminators))
  {
    EnvKeysPlain();
    RewriteKeysKeepsBreaks(c, body, EnvKeys);
    RewriteEnvAsLines(c, body);
    SplitRebuild(RewriteEnv(c, body), LineTerminators);
  }
}
