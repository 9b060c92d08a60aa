/**
 * The slice of JavaScript semantics the handlers rely on: request-body values,
 * truthiness, template-literal conversion, `String.prototype.trim`,
 * `String.prototype.split` and `Array.prototype.join`.
 */
module Js {
  import opened Seqs

  /**
   * A value as the JSON and URL-encoded body parsers hand it to a handler.
   * Numbers are integers here; an object's own properties are not needed.
   */
  datatype JsValue =
    | Undefined
    | Null
    | Bool(b: bool)
    | Num(n: int)
    | Str(s: string)
    | Arr(items: seq<JsValue>)
    | Obj

  /** JavaScript truthiness, as used by `v ? a : b`. */
  predicate Truthy(v: JsValue) {
    match v
    case Undefined => false
    case Null => false
    case Bool(b) => b
    case Num(n) => n != 0
    case Str(s) => s != ""
    case Arr(_) => true
    case Obj => true
  }

  /** The value of `key` in a request body; a missing property reads as `undefined`. */
  function Get(body: map<string, JsValue>, key: string): JsValue {
    if key in body then body[key] else Undefined
  }

  // ---------------------------------------------------------------------------
  // Conversion to text, as `${v}` does it

  function DigitChar(d: nat): char
    requires d < 10
  {
    (48 + d) as char
  }

  function NatText(n: nat): string
    decreases n
  {
    if n < 10 then [DigitChar(n)] else NatText(n / 10) + [DigitChar(n % 10)]
  }

  function IntText(n: int): string {
    if n < 0 then "-" + NatText(-n) else NatText(n)
  }

  /**
   * `${v}`: arrays are joined with "," and their `undefined` and `null`
   * elements become empty text.
   */
  function ToText(v: JsValue): string
    decreases v
  {
    match v
    case Undefined => "undefined"
    case Null => "null"
    case Bool(b) => if b then "true" else "false"
    case Num(n) => IntText(n)
    case Str(s) => s
    case Arr(items) =>
      Join(seq(|items|, i requires 0 <= i < |items| =>
             if items[i].Undefined? || items[i].Null? then "" else ToText(items[i])), ',')
    case Obj => "[object Object]"
  }

  // ---------------------------------------------------------------------------
  // White space and trim

  /** ECMAScript LineTerminator code points (what `.` in a regular expression does not match). */
  const LineTerminators: set<char> := {'\n', '\r', '\U{2028}', '\U{2029}'}

  /** ECMAScript WhiteSpace and LineTerminator code points: what `trim` removes. */
  predicate IsWhitespace(c: char) {
    || c == '\t' || c == '\U{000B}' || c == '\U{000C}' || c == ' '
    || c == '\U{00A0}' || c == '\U{FEFF}' || c == '\U{1680}'
    || ('\U{2000}' <= c <= '\U{200A}')
    || c == '\U{202F}' || c == '\U{205F}' || c == '\U{3000}'
    || c in LineTerminators
  }

  predicate AllWhitespace(s: string) {
    forall i :: 0 <= i < |s| ==> IsWhitespace(s[i])
  }

  /** Length of the white-space run that starts `s`. */
  function LeadingWhitespace(s: string): (k: nat)
    ensures k <= |s| && forall i :: 0 <= i < k ==> IsWhitespace(s[i])
    ensures k < |s| ==> !IsWhitespace(s[k])
  {
    if s == [] || !IsWhitespace(s[0]) then 0 else 1 + LeadingWhitespace(s[1..])
  }

  /** Index at which the white-space run that ends `s` begins. */
  function TrailingStart(s: string): (k: nat)
    ensures k <= |s| && forall i :: k <= i < |s| ==> IsWhitespace(s[i])
    ensures 0 < k ==> !IsWhitespace(s[k - 1])
  {
    if s == [] || !IsWhitespace(s[|s| - 1]) then |s| else TrailingStart(s[..|s| - 1])
  }

  /** `String.prototype.trim`. */
  function Trim(s: string): (r: string)
    ensures |r| <= |s|
    ensures r == [] <==> AllWhitespace(s)
    ensures r != [] ==> !IsWhitespace(r[0]) && !IsWhitespace(r[|r| - 1])
  {
    var a := LeadingWhitespace(s);
    if a == |s| then []
    else
      var b := TrailingStart(s);
      assert a < b;
      s[a..b]
  }

  /**
   * Trim removes exactly the white-space margins: any infix of `s` whose
   * margins are white space and whose ends are not is what Trim returns.
   */
  lemma {:induction false} TrimIsTheInfix(s: string, i: nat, j: nat)
    requires i <= j <= |s|
    requires AllWhitespace(s[..i]) && AllWhitespace(s[j..])
    requires i < j ==> !IsWhitespace(s[i]) && !IsWhitespace(s[j - 1])
    ensures Trim(s) == s[i..j]
  {
    forall k | 0 <= k < i ensures IsWhitespace(s[k]) {
      assert s[..i][k] == s[k];
    }
    forall k | j <= k < |s| ensures IsWhitespace(s[k]) {
      assert s[j..][k - j] == s[k];
    }
    if i < j {
      LeadingIs(s, i);
      TrailingIs(s, j);
    } else {
      assert AllWhitespace(s);
    }
  }

  /** The leading white-space run is determined by where it stops. */
  lemma LeadingIs(s: string, i: nat)
    requires i < |s| && !IsWhitespace(s[i])
    requires forall k :: 0 <= k < i ==> IsWhitespace(s[k])
    ensures LeadingWhitespace(s) == i
  {
    var a := LeadingWhitespace(s);
    assert a <= i ==> a == i;
  }

  /** The trailing white-space run is determined by where it starts. */
  lemma TrailingIs(s: string, j: nat)
    requires 0 < j <= |s| && !IsWhitespace(s[j - 1])
    requires forall k :: j <= k < |s| ==> IsWhitespace(s[k])
    ensures TrailingStart(s) == j
  {
    var b := TrailingStart(s);
    assert b >= j ==> b == j;
  }

  // ---------------------------------------------------------------------------
  // split and join

  /** Number of characters of `s` that belong to `seps`. */
  function CountOf(s: string, seps: set<char>): nat {
    if s == [] then 0 else (if s[0] in seps then 1 else 0) + CountOf(s[1..], seps)
  }

  predicate NoneOf(s: string, seps: set<char>) {
    forall i :: 0 <= i < |s| ==> s[i] !in seps
  }

  /**
   * `String.prototype.split`, cutting at every character of `seps`:
   * one piece more than there are separators, empty pieces kept.
   */
  function Split(s: string, seps: set<char>): (r: seq<string>)
    ensures |r| == CountOf(s, seps) + 1
    ensures forall i :: 0 <= i < |r| ==> NoneOf(r[i], seps)
  {
    if s == [] then [""]
    else
      var rest := Split(s[1..], seps);
      if s[0] in seps then [""] + rest else [[s[0]] + rest[0]] + rest[1..]
  }

  /** `Array.prototype.join` with a one-character separator. */
  function Join(pieces: seq<string>, sep: char): string {
    if pieces == [] then ""
    else if |pieces| == 1 then pieces[0]
    else pieces[0] + [sep] + Join(pieces[1..], sep)
  }

  /** A text without separators is a single piece. */
  lemma {:induction false} SplitWithoutSeparator(s: string, seps: set<char>)
    requires NoneOf(s, seps)
    ensures Split(s, seps) == [s]
  {
    if s != [] {
      assert NoneOf(s[1..], seps) by {
        forall k | 0 <= k < |s| - 1 ensures s[1..][k] !in seps { assert s[1..][k] == s[k + 1]; }
      }
      SplitWithoutSeparator(s[1..], seps);
      assert [s[0]] + s[1..] == s;
    }
  }

  /** One step of Split, on a text given as its first character and the rest. */
  lemma SplitCons(c: char, s: string, seps: set<char>)
    ensures Split([c] + s, seps) ==
      if c in seps then [""] + Split(s, seps) else [[c] + Split(s, seps)[0]] + Split(s, seps)[1..]
  {
    assert ([c] + s)[1..] == s;
  }

  /** Splitting distributes over a separator: the pieces left of it, then those right of it. */
  lemma {:induction false} SplitAtSeparator(a: string, t: char, b: string, seps: set<char>)
    requires t in seps
    ensures Split(a + [t] + b, seps) == Split(a, seps) + Split(b, seps)
  {
    var rb := Split(b, seps);
    if a == [] {
      assert Split(a + [t] + b, seps) == [""] + rb by {
        assert a + [t] + b == [t] + b;
        SplitCons(t, b, seps);
      }
    } else {
      var a' := a[1..];
      var ra := Split(a', seps);
      SplitAtSeparator(a', t, b, seps);
      assert Split(a + [t] + b, seps) ==
             if a[0] in seps then [""] + (ra + rb) else [[a[0]] + (ra + rb)[0]] + (ra + rb)[1..] by {
        assert a + [t] + b == [a[0]] + (a' + [t] + b);
        SplitCons(a[0], a' + [t] + b, seps);
      }
      assert Split(a, seps) ==
             if a[0] in seps then [""] + ra else [[a[0]] + ra[0]] + ra[1..] by {
        assert a == [a[0]] + a';
        SplitCons(a[0], a', seps);
      }
      if a[0] in seps {
        ConsAppend("", ra, rb);
      } else {
        HeadTailAppend(ra, rb);
        ConsAppend([a[0]] + ra[0], ra[1..], rb);
      }
    }
  }

  /** Joining the pieces of a split gives back the text. */
  lemma {:induction false} JoinSplit(s: string, c: char)
    ensures Join(Split(s, {c}), c) == s
  {
    if s != [] {
      JoinSplit(s[1..], c);
      var rest := Split(s[1..], {c});
      if s[0] == c {
        assert Split(s, {c}) == [""] + rest;
        assert ([""] + rest)[1..] == rest;
      } else if |rest| == 1 {
        assert [s[0]] + rest[0] == s;
      } else {
        var r := Split(s, {c});
        assert r[1..] == rest[1..];
        assert Join(rest, c) == rest[0] + [c] + Join(rest[1..], c);
        assert [s[0]] + (rest[0] + [c] + Join(rest[1..], c)) == [s[0]] + rest[0] + [c] + Join(rest[1..], c);
      }
    }
  }

  /** The separator characters of `s`, in order: what `split` cuts at and drops. */
  function Separators(s: string, seps: set<char>): (r: string)
    ensures |r| == CountOf(s, seps)
    ensures forall i :: 0 <= i < |r| ==> r[i] in seps
  {
    if s == [] then [] else (if s[0] in seps then [s[0]] else []) + Separators(s[1..], seps)
  }

  /** The pieces with the given separators put back between them. */
  function Interleave(pieces: seq<string>, breaks: string): string
    requires |pieces| == |breaks| + 1
    decreases |breaks|
  {
    if breaks == [] then pieces[0] else pieces[0] + [breaks[0]] + Interleave(pieces[1..], breaks[1..])
  }

  /**
   * A split loses nothing but the choice of separator at each cut: the pieces
   * and the separators, interleaved again, give back the text.
   */
  lemma {:induction false} SplitRebuild(s: string, seps: set<char>)
    ensures Interleave(Split(s, seps), Separators(s, seps)) == s
  {
    if s != [] {
      SplitRebuild(s[1..], seps);
      var rest := Split(s[1..], seps);
      var br := Separators(s[1..], seps);
      if s[0] in seps {
        assert Split(s, seps) == [""] + rest;
        assert Separators(s, seps) == [s[0]] + br;
        assert ([""] + rest)[1..] == rest;
        assert ([s[0]] + br)[1..] == br;
      } else {
        assert Split(s, seps) == [[s[0]] + rest[0]] + rest[1..];
        assert Separators(s, seps) == br;
        InterleaveFirst([s[0]], rest, br);
        assert [s[0]] + s[1..] == s;
      }
    }
  }

  /** Text put in front of the first piece comes out in front of the whole. */
  lemma InterleaveFirst(x: string, pieces: seq<string>, breaks: string)
    requires |pieces| == |breaks| + 1
    ensures Interleave([x + pieces[0]] + pieces[1..], breaks) == x + Interleave(pieces, breaks)
  {
    var p := [x + pieces[0]] + pieces[1..];
    if breaks != [] {
      assert p[1..] == pieces[1..];
      var tail := [breaks[0]] + Interleave(pieces[1..], breaks[1..]);
      assert (x + pieces[0]) + [breaks[0]] + Interleave(pieces[1..], breaks[1..]) == (x + pieces[0]) + tail;
      assert pieces[0] + [breaks[0]] + Interleave(pieces[1..], breaks[1..]) == pieces[0] + tail;
      AppendAssoc(x, pieces[0], tail);
    }
  }

  lemma {:induction false} SeparatorsAppend(a: string, b: string, seps: set<char>)
    ensures Separators(a + b, seps) == Separators(a, seps) + Separators(b, seps)
  {
    if a != [] {
      SeparatorsAppend(a[1..], b, seps);
      assert (a + b)[1..] == a[1..] + b;
      var head := if a[0] in seps then [a[0]] else [];
      AppendAssoc(head, Separators(a[1..], seps), Separators(b, seps));
    } else {
      assert a + b == b;
    }
  }

  lemma {:induction false} SeparatorsNone(s: string, seps: set<char>)
    requires NoneOf(s, seps)
    ensures Separators(s, seps) == []
  {
    if s != [] {
      assert NoneOf(s[1..], seps) by {
        forall k | 0 <= k < |s| - 1 ensures s[1..][k] !in seps { assert s[1..][k] == s[k + 1]; }
      }
      SeparatorsNone(s[1..], seps);
    }
  }

  /** Splitting a join of separator-free pieces gives back the pieces. */
  lemma {:induction false} SplitJoin(pieces: seq<string>, c: char)
    requires |pieces| >= 1
    requires forall i :: 0 <= i < |pieces| ==> NoneOf(pieces[i], {c})
    ensures Split(Join(pieces, c), {c}) == pieces
  {
    SplitWithoutSeparator(pieces[0], {c});
    if |pieces| > 1 {
      SplitJoin(pieces[1..], c);
      SplitAtSeparator(pieces[0], c, Join(pieces[1..], c), {c});
      assert [pieces[0]] + pieces[1..] == pieces;
    }
  }
}
