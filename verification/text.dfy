/** The string built-ins the capture handler relies on, stated as JavaScript
    defines them for the inputs the handler gives them: decimal rendering of a
    number (`String(n)`), `padStart`, `includes` and `split` on one character. */
module Text {

  import opened Wrappers

  predicate IsDigit(c: char) {
    '0' <= c <= '9'
  }

  predicate AllDigits(s: string) {
    forall i :: 0 <= i < |s| ==> IsDigit(s[i])
  }

  function DigitChar(d: nat): (c: char)
    requires d < 10
    ensures IsDigit(c)
  {
    ('0' as int + d) as char
  }

  function DigitValue(c: char): (d: nat)
    requires IsDigit(c)
    ensures d < 10 && DigitChar(d) == c
  {
    c as int - '0' as int
  }

  /** The number a string of decimal digits denotes, most significant digit first. */
  function DigitsValue(s: string): nat
    requires AllDigits(s)
  {
    if s == [] then 0 else 10 * DigitsValue(s[..|s| - 1]) + DigitValue(s[|s| - 1])
  }

  /** The shape `String(n)` gives a non-negative integer: at least one digit and
      no leading zero unless the number is zero. */
  predicate Canonical(s: string) {
    |s| >= 1 && AllDigits(s) && (s[0] == '0' ==> |s| == 1)
  }

  /** `String(n)` for a non-negative integer. */
  function NatToString(n: nat): (s: string)
    ensures Canonical(s)
    ensures DigitsValue(s) == n
    decreases n
  {
    if n < 10 then [DigitChar(n)]
    else
      var s := NatToString(n / 10) + [DigitChar(n % 10)];
      assert s[..|s| - 1] == NatToString(n / 10);
      s
  }

  /** `String(i)` for any integer: a minus sign in front of a negative one. */
  function IntToString(i: int): (s: string)
    ensures |s| >= 1
  {
    if i < 0 then "-" + NatToString(-i) else NatToString(i)
  }

  /** Reads back what `IntToString` writes; anything else is `None`. */
  function ParseInt(s: string): Option<int> {
    if |s| >= 2 && s[0] == '-' && Canonical(s[1..]) && s[1] != '0' then Some(0 - DigitsValue(s[1..]))
    else if Canonical(s) then Some(DigitsValue(s))
    else None
  }

  /** A number with a non-zero leading digit is at least one. */
  lemma {:induction false} LeadingNonZeroPositive(s: string)
    requires |s| >= 1 && AllDigits(s) && s[0] != '0'
    ensures DigitsValue(s) >= 1
    decreases |s|
  {
    if |s| > 1 {
      LeadingNonZeroPositive(s[..|s| - 1]);
    }
  }

  /** A canonical digit string is the rendering of its own value: `String` is
      onto the canonical strings, so `ParseInt` accepts exactly what it renders. */
  lemma {:induction false} CanonicalIsRendering(s: string)
    requires Canonical(s)
    ensures NatToString(DigitsValue(s)) == s
    decreases |s|
  {
    if |s| > 1 {
      var p := s[..|s| - 1];
      assert p[0] == s[0];
      LeadingNonZeroPositive(p);
      CanonicalIsRendering(p);
      var n := DigitsValue(s);
      assert n / 10 == DigitsValue(p) && n % 10 == DigitValue(s[|s| - 1]);
      assert s == p + [s[|s| - 1]];
    }
  }

  lemma IntToStringRoundTrip(i: int)
    ensures ParseInt(IntToString(i)) == Some(i)
  {
    if i < 0 {
      var t := NatToString(-i);
      assert ("-" + t)[1..] == t;
    }
  }

  /** Whatever `ParseInt` accepts is the rendering of the number it returns. */
  lemma ParsedIntIsRendering(s: string)
    requires ParseInt(s).Some?
    ensures IntToString(ParseInt(s).value) == s
  {
    if |s| >= 2 && s[0] == '-' && Canonical(s[1..]) && s[1] != '0' {
      var t := s[1..];
      var n: int := DigitsValue(t);
      assert ParseInt(s).value == -n;
      assert DigitsValue(t) >= 1 by {
        LeadingNonZeroPositive(t);
      }
      assert NatToString(DigitsValue(t)) == t by {
        CanonicalIsRendering(t);
      }
      assert s == "-" + t;
    } else {
      CanonicalIsRendering(s);
    }
  }

  /** `s.padStart(width, fill)`: fills on the left up to `width`; a string that
      is already long enough comes back unchanged (never truncated). */
  function PadStart(s: string, width: nat, fill: char): (r: string)
    ensures |r| == if |s| >= width then |s| else width
    ensures r[|r| - |s|..] == s
    ensures forall k :: 0 <= k < |r| - |s| ==> r[k] == fill
  {
    if |s| >= width then s else seq(width - |s|, _ => fill) + s
  }

  /** A zero-padded field of `width` digits, read back. */
  function ParseFixed(s: string, width: nat): Option<nat> {
    if |s| == width && AllDigits(s) then Some(DigitsValue(s)) else None
  }

  /** Leading zeros do not change the value of a digit string. */
  lemma {:induction false} LeadingZeroValue(s: string)
    requires AllDigits(s)
    ensures AllDigits("0" + s) && DigitsValue("0" + s) == DigitsValue(s)
    decreases |s|
  {
    if s != [] {
      var p := s[..|s| - 1];
      LeadingZeroValue(p);
      assert ("0" + s)[..|"0" + s| - 1] == "0" + p;
    }
  }

  /** Each further decimal digit of a number adds one character to its rendering. */
  lemma RenderingStep(n: nat)
    ensures |NatToString(n)| == if n < 10 then 1 else |NatToString(n / 10)| + 1
  {
  }

  /** Renderings of numbers below 10, 100 and 1000 fit in one, two and three digits. */
  lemma RenderingWidth(n: nat)
    ensures n < 10 ==> |NatToString(n)| == 1
    ensures n < 100 ==> |NatToString(n)| <= 2
    ensures n < 1000 ==> |NatToString(n)| <= 3
  {
    RenderingStep(n);
    RenderingStep(n / 10);
    RenderingStep(n / 100);
    assert n / 10 / 10 == n / 100;
  }

  /** Any number of leading zeros leaves the value of a digit string unchanged. */
  lemma {:induction false} LeadingZerosValue(k: nat, s: string)
    requires AllDigits(s)
    ensures AllDigits(seq(k, _ => '0') + s) && DigitsValue(seq(k, _ => '0') + s) == DigitsValue(s)
    decreases k
  {
    if k > 0 {
      var z: string := seq(k - 1, _ => '0');
      LeadingZerosValue(k - 1, s);
      LeadingZeroValue(z + s);
      assert seq(k, _ => '0') == "0" + z;
      assert seq(k, _ => '0') + s == "0" + (z + s);
    } else {
      assert seq(k, _ => '0') + s == s;
    }
  }

  /** Zero padding to a width the rendering fits in is undone by `ParseFixed`. */
  lemma PaddedRoundTrip(n: nat, width: nat)
    requires |NatToString(n)| <= width
    ensures ParseFixed(PadStart(NatToString(n), width, '0'), width) == Some(n)
  {
    var t := NatToString(n);
    if |t| < width {
      LeadingZerosValue(width - |t|, t);
      assert PadStart(t, width, '0') == seq(width - |t|, _ => '0') + t;
    }
  }

  /** Padding to one more character puts one more zero in front. */
  lemma PadOneMore(r: string, w: nat)
    requires |r| <= w
    ensures PadStart(r, w + 1, '0') == "0" + PadStart(r, w, '0')
  {
    assert seq(w + 1 - |r|, _ => '0') == "0" + seq(w - |r|, _ => '0');
  }

  /** Every field of `width` digits is the zero-padded rendering of its value. */
  lemma {:induction false} FixedIsPadded(s: string, width: nat)
    requires ParseFixed(s, width).Some? && width >= 1
    ensures |NatToString(DigitsValue(s))| <= width
    ensures PadStart(NatToString(DigitsValue(s)), width, '0') == s
    decreases width
  {
    if s[0] != '0' || width == 1 {
      CanonicalIsRendering(s);
    } else {
      var t := s[1..];
      assert s == "0" + t;
      assert ParseFixed(t, width - 1).Some?;
      LeadingZeroValue(t);
      FixedIsPadded(t, width - 1);
      PadOneMore(NatToString(DigitsValue(t)), width - 1);
    }
  }

  /** `sub` occurs in `s` starting at index `i`. */
  predicate OccursAt(s: string, sub: string, i: nat) {
    i + |sub| <= |s| && s[i..i + |sub|] == sub
  }

  /** `s.includes(sub)`. */
  predicate Includes(s: string, sub: string) {
    exists i: nat :: i <= |s| && OccursAt(s, sub, i)
  }

  /** `s.includes(c)` for a one-character string is membership of `c`. */
  lemma IncludesChar(s: string, c: char)
    ensures Includes(s, [c]) <==> c in s
  {
    if c in s {
      var i :| 0 <= i < |s| && s[i] == c;
      assert OccursAt(s, [c], i);
    }
    if Includes(s, [c]) {
      var i: nat :| i <= |s| && OccursAt(s, [c], i);
      assert s[i..i + 1][0] == s[i];
    }
  }

  /** The index of the first occurrence of `c` in `s`. */
  function FirstIndex(s: string, c: char): (i: nat)
    requires c in s
    ensures i < |s| && s[i] == c && c !in s[..i]
  {
    if s[0] == c then 0
    else
      var i := 1 + FirstIndex(s[1..], c);
      assert s[..i] == [s[0]] + s[1..][..i - 1];
      i
  }

  /** The inverse of `Split`: the parts with `c` between consecutive ones. */
  function Join(parts: seq<string>, c: char): string
    requires |parts| >= 1
  {
    if |parts| == 1 then parts[0] else parts[0] + [c] + Join(parts[1..], c)
  }

  /** `s.split(c)` for a one-character separator: the maximal runs between
      separators, so one more part than there are separators. */
  function Split(s: string, c: char): (parts: seq<string>)
    ensures |parts| >= 1
    ensures forall k :: 0 <= k < |parts| ==> c !in parts[k]
    ensures Join(parts, c) == s
    decreases |s|
  {
    if c !in s then [s]
    else
      var i := FirstIndex(s, c);
      var parts := [s[..i]] + Split(s[i + 1..], c);
      assert parts[1..] == Split(s[i + 1..], c);
      assert s == s[..i] + [c] + s[i + 1..];
      parts
  }

  /** The first part of a split runs up to the first separator, or is the
      whole string when there is none. */
  lemma SplitHead(s: string, c: char)
    ensures Split(s, c)[0] == if c in s then s[..FirstIndex(s, c)] else s
  {
  }

  /** After the first part, a split goes on with the split of what follows
      the first separator. */
  lemma SplitTail(s: string, c: char)
    requires c in s
    ensures Split(s, c)[1..] == Split(s[FirstIndex(s, c) + 1..], c)
  {
  }

  /** The separator found first in a joined string is the one after the first part. */
  lemma FirstIndexOfJoin(p: string, c: char, rest: string)
    requires c !in p
    ensures FirstIndex(p + [c] + rest, c) == |p|
  {
    var s := p + [c] + rest;
    assert s[|p|] == c;
  }

  /** Splitting a separator-free part, the separator and a rest gives the
      part followed by the split of the rest. */
  lemma SplitJoined(p: string, c: char, rest: string)
    requires c !in p
    ensures Split(p + [c] + rest, c) == [p] + Split(rest, c)
  {
    var s := p + [c] + rest;
    assert s[|p|] == c;
    FirstIndexOfJoin(p, c, rest);
    assert s[..|p|] == p;
    assert s[|p| + 1..] == rest;
  }

  /** Splitting undoes joining separator-free parts, so `Split` and `Join` are
      mutually inverse. */
  lemma {:induction false} SplitJoin(parts: seq<string>, c: char)
    requires |parts| >= 1
    requires forall k :: 0 <= k < |parts| ==> c !in parts[k]
    ensures Split(Join(parts, c), c) == parts
    decreases |parts|
  {
    if |parts| > 1 {
      var rest := Join(parts[1..], c);
      assert Join(parts, c) == parts[0] + [c] + rest;
      SplitJoined(parts[0], c, rest);
      SplitJoin(parts[1..], c);
      assert parts == [parts[0]] + parts[1..];
    } else {
      assert c !in Join(parts, c);
    }
  }
}
