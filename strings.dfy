/**
 * The Python string built-ins the generator relies on, as used on `str` values:
 * `strip()`, `split(sep)`, `sep.join(...)` and `str(n)` for a natural number.
 */
module Strings {
  import opened Wrappers

  /** `c.isspace()`: the characters `str.strip()` removes when called without an argument. */
  predicate IsSpace(c: char) {
    var n := c as int;
    (9 <= n <= 13) || (28 <= n <= 32) || n == 0x85 || n == 0xA0 || n == 0x1680
    || (0x2000 <= n <= 0x200A) || n == 0x2028 || n == 0x2029 || n == 0x202F
    || n == 0x205F || n == 0x3000
  }

  /** How many white-space characters `s` starts with. */
  function LeadingSpace(s: string): (k: nat)
    ensures k <= |s|
    ensures forall i :: 0 <= i < k ==> IsSpace(s[i])
    ensures k < |s| ==> !IsSpace(s[k])
  {
    if s != [] && IsSpace(s[0]) then 1 + LeadingSpace(s[1..]) else 0
  }

  /** How many white-space characters `s` ends with. */
  function TrailingSpace(s: string): (k: nat)
    ensures k <= |s|
    ensures forall i :: |s| - k <= i < |s| ==> IsSpace(s[i])
    ensures k < |s| ==> !IsSpace(s[|s| - 1 - k])
  {
    if s != [] && IsSpace(s[|s| - 1]) then 1 + TrailingSpace(s[..|s| - 1]) else 0
  }

  /**
   * `s.strip()`: what lies between the leading and the trailing white space of `s`,
   * which neither starts nor ends with white space.
   */
  function Strip(s: string): (r: string)
    ensures |r| <= |s|
    ensures r != [] ==> !IsSpace(r[0]) && !IsSpace(r[|r| - 1])
  {
    var k := LeadingSpace(s);
    var e := |s| - TrailingSpace(s);
    if e <= k then "" else s[k..e]
  }

  /** Stripping gives the empty string exactly when the whole string is white space. */
  lemma StripEmpty(s: string)
    ensures Strip(s) == [] <==> forall i :: 0 <= i < |s| ==> IsSpace(s[i])
  {
    var k := LeadingSpace(s);
    var e := |s| - TrailingSpace(s);
    if k < |s| {
      assert !IsSpace(s[k]);
      assert e > k;
    }
  }

  /**
   * `Strip(s)` is a contiguous part of `s` with only white space before and after it:
   * `s == s[..k] + Strip(s) + s[k + |Strip(s)|..]`.
   */
  lemma StripIsInfix(s: string)
    ensures LeadingSpace(s) + |Strip(s)| <= |s|
    ensures Strip(s) == s[LeadingSpace(s)..LeadingSpace(s) + |Strip(s)|]
    ensures forall i :: LeadingSpace(s) + |Strip(s)| <= i < |s| ==> IsSpace(s[i])
  {
  }

  /** A string with no white space at either end is left as it is. */
  lemma StripUnchanged(s: string)
    requires s != [] && !IsSpace(s[0]) && !IsSpace(s[|s| - 1])
    ensures Strip(s) == s
  {
  }

  /** `sep` occurs in `s` starting at position `i`. */
  predicate OccursAt(s: string, sep: string, i: nat) {
    i + |sep| <= |s| && forall k :: 0 <= k < |sep| ==> s[i + k] == sep[k]
  }

  /** `sep in s`. */
  predicate Contains(s: string, sep: string) {
    FindFrom(s, sep, 0).Some?
  }

  /** `s.find(sep, start)`: the first position at or after `start` where `sep` occurs. */
  function FindFrom(s: string, sep: string, start: nat): (r: Option<nat>)
    decreases |s| - start
    ensures r.Some? ==> start <= r.value && OccursAt(s, sep, r.value)
    ensures r.Some? ==> forall j: nat :: start <= j < r.value ==> !OccursAt(s, sep, j)
    ensures r.None? ==> forall j: nat :: start <= j ==> !OccursAt(s, sep, j)
  {
    if start + |sep| > |s| then None
    else if OccursAt(s, sep, start) then Some(start)
    else FindFrom(s, sep, start + 1)
  }

  /**
   * `s.split(sep)` for a non-empty separator: the pieces between the occurrences of `sep`,
   * found left to right without overlap. No piece contains the separator.
   */
  function Split(s: string, sep: string): (r: seq<string>)
    requires |sep| > 0
    decreases |s|
    ensures |r| >= 1
  {
    match FindFrom(s, sep, 0)
    case None => [s]
    case Some(i) => [s[..i]] + Split(s[i + |sep|..], sep)
  }

  /** An occurrence inside a prefix of `s` is an occurrence in `s` that ends within the prefix. */
  lemma OccursInPrefix(s: string, sep: string, i: nat, j: nat)
    requires i <= |s| && OccursAt(s[..i], sep, j)
    ensures OccursAt(s, sep, j) && j + |sep| <= i
  {
    forall k | 0 <= k < |sep| ensures s[j + k] == sep[k] {
      assert s[..i][j + k] == sep[k];
    }
  }

  /** Splitting at the first occurrence of the separator. */
  lemma SplitAtFirst(s: string, sep: string, i: nat)
    requires |sep| > 0 && FindFrom(s, sep, 0) == Some(i)
    ensures Split(s, sep) == [s[..i]] + Split(s[i + |sep|..], sep)
  {
  }

  /** What precedes the first occurrence of the separator does not contain it. */
  lemma FirstPieceFree(s: string, sep: string, i: nat)
    requires |sep| > 0 && FindFrom(s, sep, 0) == Some(i)
    ensures !Contains(s[..i], sep)
  {
    var g := FindFrom(s[..i], sep, 0);
    if g.Some? {
      OccursInPrefix(s, sep, i, g.value);
    }
  }

  /** No piece of a split contains the separator. */
  lemma {:induction false} SplitPiecesFree(s: string, sep: string, k: nat)
    requires |sep| > 0 && k < |Split(s, sep)|
    decreases |s|
    ensures !Contains(Split(s, sep)[k], sep)
  {
    var f := FindFrom(s, sep, 0);
    if f.Some? {
      var i := f.value;
      var rest := s[i + |sep|..];
      SplitAtFirst(s, sep, i);
      if k == 0 {
        FirstPieceFree(s, sep, i);
      } else {
        SplitPiecesFree(rest, sep, k - 1);
      }
    }
  }

  /** An occurrence of `sep` at `i` cuts `s` into what is before it, `sep`, and what follows. */
  lemma OccurrenceCuts(s: string, sep: string, i: nat)
    requires OccursAt(s, sep, i)
    ensures s == s[..i] + sep + s[i + |sep|..]
  {
    var t := s[..i] + sep + s[i + |sep|..];
    assert |t| == |s|;
    forall k | 0 <= k < |s| ensures t[k] == s[k] {
      if k < i {
      } else if k < i + |sep| {
        assert t[k] == sep[k - i];
      } else {
      }
    }
  }

  /** Joining the pieces again with the separator gives back the split string. */
  lemma {:induction false} SplitJoin(s: string, sep: string)
    requires |sep| > 0
    decreases |s|
    ensures Join(Split(s, sep), sep) == s
  {
    var f := FindFrom(s, sep, 0);
    if f.Some? {
      var i := f.value;
      var rest := s[i + |sep|..];
      var pieces := Split(rest, sep);
      SplitJoin(rest, sep);
      SplitAtFirst(s, sep, i);
      OccurrenceCuts(s, sep, i);
      var all := [s[..i]] + pieces;
      assert all[1..] == pieces;
      calc {
        Join(Split(s, sep), sep);
        Join(all, sep);
        s[..i] + sep + Join(pieces, sep);
        s[..i] + sep + rest;
        s;
      }
    }
  }

  /** `sep.join(pieces)`. */
  function Join(pieces: seq<string>, sep: string): string {
    if |pieces| == 0 then ""
    else if |pieces| == 1 then pieces[0]
    else pieces[0] + sep + Join(pieces[1..], sep)
  }

  /** A split has more than one piece exactly when the separator occurs. */
  lemma SplitCount(s: string, sep: string)
    requires |sep| > 0
    ensures |Split(s, sep)| == 1 <==> !Contains(s, sep)
  {
    var f := FindFrom(s, sep, 0);
    if f.Some? {
      SplitAtFirst(s, sep, f.value);
    }
  }

  /**
   * When no occurrence of `sep` starts inside `p` (in `p + sep + r`), the first piece of
   * `p + sep + r` is `p` and the others are the pieces of `r`.
   */
  lemma SplitAfterPiece(p: string, sep: string, r: string)
    requires |sep| > 0
    requires forall j: nat :: j < |p| ==> !OccursAt(p + sep + r, sep, j)
    ensures Split(p + sep + r, sep) == [p] + Split(r, sep)
  {
    var s := p + sep + r;
    assert OccursAt(s, sep, |p|) by {
      forall k | 0 <= k < |sep| ensures s[|p| + k] == sep[k] {
      }
    }
    var f := FindFrom(s, sep, 0);
    assert f == Some(|p|);
    SplitAtFirst(s, sep, |p|);
    assert s[..|p|] == p;
    assert s[|p| + |sep|..] == r;
  }

  /** A single-character separator that does not occur in `p` cannot start inside `p`. */
  lemma NoCharOccurrence(p: string, c: char, r: string)
    requires c !in p
    ensures forall j: nat :: j < |p| ==> !OccursAt(p + [c] + r, [c], j)
  {
    forall j: nat | j < |p| ensures !OccursAt(p + [c] + r, [c], j) {
      var x := p + [c] + r;
      assert x[j + 0] == p[j] != c && [c][0] == c;
    }
  }

  /** For a one-character separator, containment is membership. */
  lemma ContainsChar(s: string, c: char)
    ensures Contains(s, [c]) <==> c in s
  {
    if c in s {
      var j :| 0 <= j < |s| && s[j] == c;
      assert s[j + 0] == [c][0];
      assert OccursAt(s, [c], j);
    }
    if Contains(s, [c]) {
      var j := FindFrom(s, [c], 0).value;
      assert s[j + 0] == [c][0];
    }
  }

  /** Splitting on one character gives one piece more than there are occurrences of it. */
  lemma {:induction false} SplitCharCount(s: string, c: char)
    decreases |s|
    ensures |Split(s, [c])| == multiset(s)[c] + 1
  {
    var f := FindFrom(s, [c], 0);
    if f.Some? {
      var i := f.value;
      var rest := s[i + 1..];
      SplitAtFirst(s, [c], i);
      OccurrenceCuts(s, [c], i);
      FirstPieceFree(s, [c], i);
      ContainsChar(s[..i], c);
      SplitCharCount(rest, c);
      assert multiset(s) == multiset(s[..i]) + multiset([c]) + multiset(rest);
    } else {
      ContainsChar(s, c);
    }
  }

  /** The decimal digit for `d`. */
  function DigitChar(d: nat): (c: char)
    requires d < 10
    ensures '0' <= c <= '9' && c as int - '0' as int == d
  {
    ('0' as int + d) as char
  }

  predicate IsDigits(s: string) {
    forall k :: 0 <= k < |s| ==> '0' <= s[k] <= '9'
  }

  /** `str(n)` for a natural number: its decimal digits, with no leading zero. */
  function NatToString(n: nat): (r: string)
    ensures |r| >= 1 && IsDigits(r)
    ensures r[0] == '0' ==> n == 0
  {
    if n < 10 then [DigitChar(n)] else NatToString(n / 10) + [DigitChar(n % 10)]
  }

  /** The number a string of decimal digits denotes. */
  function DecimalValue(s: string): nat
    requires IsDigits(s)
  {
    if s == [] then 0
    else DecimalValue(s[..|s| - 1]) * 10 + (s[|s| - 1] as int - '0' as int)
  }

  /** Reading the decimal text of `n` back gives `n`. */
  lemma {:induction false} DecimalRoundTrip(n: nat)
    ensures DecimalValue(NatToString(n)) == n
  {
    if n >= 10 {
      DecimalRoundTrip(n / 10);
      var s := NatToString(n);
      assert s[..|s| - 1] == NatToString(n / 10);
    }
  }

  /** Distinct numbers have distinct decimal texts. */
  lemma NatToStringInjective(m: nat, n: nat)
    ensures NatToString(m) == NatToString(n) ==> m == n
  {
    DecimalRoundTrip(m);
    DecimalRoundTrip(n);
  }

  /** `"".join(pieces)`. */
  function Concat(pieces: seq<string>): string {
    if pieces == [] then "" else Concat(pieces[..|pieces| - 1]) + pieces[|pieces| - 1]
  }

  /** Concatenation peeled from the front. */
  lemma {:induction false} ConcatFront(pieces: seq<string>)
    requires pieces != []
    ensures Concat(pieces) == pieces[0] + Concat(pieces[1..])
  {
    if |pieces| > 1 {
      var init := pieces[..|pieces| - 1];
      ConcatFront(init);
      assert init[1..] == pieces[1..][..|pieces[1..]| - 1];
    }
  }

  /** Each line followed by a line break, as text written line by line. */
  function Terminated(lines: seq<string>): (r: seq<string>)
    ensures |r| == |lines|
  {
    seq(|lines|, i requires 0 <= i < |lines| => lines[i] + "\n")
  }

  /** Writing one more line appends it and its line break to the text. */
  lemma TerminatedAppend(lines: seq<string>, line: string)
    ensures Concat(Terminated(lines + [line])) == Concat(Terminated(lines)) + line + "\n"
  {
    var t := Terminated(lines + [line]);
    assert t[..|lines|] == Terminated(lines);
  }

  /**
   * Text written as lines that each end in a line break reads back, split at the
   * breaks, as those lines followed by the empty remainder after the last break.
   */
  lemma {:induction false} SplitTerminated(lines: seq<string>)
    requires forall i :: 0 <= i < |lines| ==> '\n' !in lines[i]
    decreases |lines|
    ensures Split(Concat(Terminated(lines)), "\n") == lines + [""]
  {
    if lines == [] {
      assert FindFrom("", "\n", 0).None?;
    } else {
      var t := Terminated(lines);
      var rest := Concat(Terminated(lines[1..]));
      ConcatFront(t);
      assert t[1..] == Terminated(lines[1..]);
      assert Concat(t) == lines[0] + "\n" + rest;
      SplitTerminated(lines[1..]);
      SplitLine(lines[0], rest);
      assert lines == [lines[0]] + lines[1..];
    }
  }

  /** Text that starts with a line and its break splits into that line and the rest's lines. */
  lemma SplitLine(line: string, rest: string)
    requires '\n' !in line
    ensures Split(line + "\n" + rest, "\n") == [line] + Split(rest, "\n")
  {
    assert "\n" == ['\n'];
    NoCharOccurrence(line, '\n', rest);
    SplitAfterPiece(line, "\n", rest);
  }
}
