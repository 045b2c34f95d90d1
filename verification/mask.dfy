/**
  The conversions between a 32-bit group mask and its text form: a list of
  bit numbers separated by whitespace, or one of the words "all", "none" and
  "off".
*/
module Mask {
  import opened Utility

  /** Number of usable bits in a mask (`MASK_BITCOUNT`). */
  const MASK_BITCOUNT: nat := 32

  /**
    A 32-bit mask, written as the set of the numbers of its set bits: bit `b`
    of the `U32` is set exactly when `b` is in the set.
  */
  type BitMask = m: set<nat> | forall b :: b in m ==> b < MASK_BITCOUNT

  /** The mask with every bit set (`MASK_ALL`). */
  const MASK_ALL: BitMask := set b: nat | b < MASK_BITCOUNT

  /** The mask with no bit set. */
  const MASK_NONE: BitMask := {}

  /** Bit `b` of `m` is set (`m & BIT(b)`). */
  predicate HasBit(m: BitMask, b: nat) {
    b in m
  }

  // ---------------------------------------------------------------------------
  //   Character helpers: case folding and decimal numbers
  // ---------------------------------------------------------------------------

  /** ASCII lower-casing, as used by `dStricmp`. */
  function ToLower(c: char): char {
    if 'A' <= c <= 'Z' then (c as int + 32) as char else c
  }

  /** `dStricmp(a, b) == 0`: equal up to ASCII case. */
  predicate EqualsIgnoreCase(a: seq<char>, b: seq<char>) {
    |a| == |b| && forall i :: 0 <= i < |a| ==> ToLower(a[i]) == ToLower(b[i])
  }

  predicate IsDigit(c: char) {
    '0' <= c <= '9'
  }

  /** The white space `atoi` skips: space, tab, newline, vertical tab, form feed, carriage return. */
  predicate IsSpace(c: char) {
    c == ' ' || c == '\t' || c == '\n' || c as int == 11 || c as int == 12 || c == '\r'
  }

  /** Length of the longest all-digit prefix of `t`. */
  function DigitRunLength(t: seq<char>): (n: nat)
    ensures n <= |t|
    ensures forall i :: 0 <= i < n ==> IsDigit(t[i])
    ensures n == |t| || !IsDigit(t[n])
  {
    if t == [] || !IsDigit(t[0]) then 0 else 1 + DigitRunLength(t[1..])
  }

  /** The value of a string of decimal digits. */
  function DecimalValue(ds: seq<char>): int
    requires forall i :: 0 <= i < |ds| ==> IsDigit(ds[i])
  {
    if ds == [] then 0 else DecimalValue(ds[..|ds| - 1]) * 10 + (ds[|ds| - 1] as int - '0' as int)
  }

  /** `dAtoi`: leading white space, an optional sign, then the longest run of digits. */
  function Atoi(s: seq<char>): int {
    if s != [] && IsSpace(s[0]) then Atoi(s[1..])
    else if s != [] && (s[0] == '-' || s[0] == '+') then
      var t := s[1..];
      var v: int := DecimalValue(t[..DigitRunLength(t)]);
      if s[0] == '-' then -v else v
    else DecimalValue(s[..DigitRunLength(s)])
  }

  function DigitChar(d: nat): char
    requires d < 10
  {
    ('0' as int + d) as char
  }

  /** `%d` of a non-negative number. */
  function Decimal(n: nat): (ds: seq<char>)
    ensures ds != []
    ensures forall i :: 0 <= i < |ds| ==> IsDigit(ds[i])
  {
    if n < 10 then [DigitChar(n)] else Decimal(n / 10) + [DigitChar(n % 10)]
  }

  /** Reading back a printed number gives the number. */
  lemma {:induction false} DecimalValueOfDecimal(n: nat)
    ensures DecimalValue(Decimal(n)) == n
  {
    var ds := Decimal(n);
    if n >= 10 {
      assert ds[..|ds| - 1] == Decimal(n / 10);
      DecimalValueOfDecimal(n / 10);
    }
  }

  lemma AtoiOfDecimal(n: nat)
    ensures Atoi(Decimal(n)) == n
  {
    var ds := Decimal(n);
    assert DigitRunLength(ds) == |ds|;
    assert ds[..|ds|] == ds;
    DecimalValueOfDecimal(n);
  }

  // ---------------------------------------------------------------------------
  //   String to mask
  // ---------------------------------------------------------------------------

  /** `mask |= 1 << bit` over `bits`, skipping every bit outside `[0, MASK_BITCOUNT)`. */
  function FoldMask(mask: BitMask, bits: seq<int>): BitMask
    decreases |bits|
  {
    if bits == [] then mask
    else
      var b := bits[0];
      FoldMask(if 0 <= b < MASK_BITCOUNT then mask + {b} else mask, bits[1..])
  }

  /** After the fold, a bit is set exactly when it was set before or is listed. */
  lemma {:induction false} FoldMaskBits(mask: BitMask, bits: seq<int>, b: nat)
    requires b < MASK_BITCOUNT
    ensures HasBit(FoldMask(mask, bits), b) <==> HasBit(mask, b) || b in bits
    decreases |bits|
  {
    if bits != [] {
      var x := bits[0];
      var next: BitMask := if 0 <= x < MASK_BITCOUNT then mask + {x} else mask;
      FoldMaskBits(next, bits[1..], b);
      assert b in bits <==> x == b || b in bits[1..];
    }
  }

  /** The number each element of `s` reads as. */
  function ElementValues(s: seq<char>): (vs: seq<int>)
    ensures |vs| == |Runs(s)|
  {
    var es := Elements(s);
    seq(|es|, k requires 0 <= k < |es| => Atoi(es[k]))
  }

  /** The text names a mask by word (or is empty) rather than by bit numbers. */
  predicate IsNamedMask(s: seq<char>) {
    || |Runs(s)| < 1
    || (|Runs(s)| == 1 && (EqualsIgnoreCase(s, "all") || EqualsIgnoreCase(s, "none") || EqualsIgnoreCase(s, "off")))
  }

  /** `mConvertStringToMask`. */
  function ConvertStringToMask(s: seq<char>): (mask: BitMask)
    ensures |Runs(s)| < 1 ==> mask == MASK_ALL
    ensures |Runs(s)| == 1 && EqualsIgnoreCase(s, "all") ==> mask == MASK_ALL
    ensures |Runs(s)| == 1 && !EqualsIgnoreCase(s, "all") && (EqualsIgnoreCase(s, "none") || EqualsIgnoreCase(s, "off"))
      ==> mask == MASK_NONE
    ensures !IsNamedMask(s) ==>
      forall b :: 0 <= b < MASK_BITCOUNT ==> (HasBit(mask, b) <==> b in ElementValues(s))
  {
    var count := |Runs(s)|;
    if count < 1 then MASK_ALL
    else if count == 1 && EqualsIgnoreCase(s, "all") then MASK_ALL
    else if count == 1 && (EqualsIgnoreCase(s, "none") || EqualsIgnoreCase(s, "off")) then MASK_NONE
    else
      var mask := FoldMask(MASK_NONE, ElementValues(s));
      assert forall b :: 0 <= b < MASK_BITCOUNT ==> (HasBit(mask, b) <==> b in ElementValues(s)) by {
        forall b | 0 <= b < MASK_BITCOUNT
          ensures HasBit(mask, b) <==> b in ElementValues(s)
        {
          FoldMaskBits(MASK_NONE, ElementValues(s), b);
        }
      }
      mask
  }

  // ---------------------------------------------------------------------------
  //   Mask to string
  // ---------------------------------------------------------------------------

  /** The numbers of the bits of `m` at or above `i`, in increasing order. */
  function SetBitsFrom(m: BitMask, i: nat): (bits: seq<nat>)
    requires i <= MASK_BITCOUNT
    decreases MASK_BITCOUNT - i
  {
    if i == MASK_BITCOUNT then []
    else if HasBit(m, i) then [i] + SetBitsFrom(m, i + 1)
    else SetBitsFrom(m, i + 1)
  }

  /** `SetBitsFrom(m, i)` lists, in increasing order, exactly the set bits of `m` from `i` on. */
  lemma {:induction false} SetBitsFromSpec(m: BitMask, i: nat)
    requires i <= MASK_BITCOUNT
    ensures forall k :: 0 <= k < |SetBitsFrom(m, i)| ==>
      i <= SetBitsFrom(m, i)[k] < MASK_BITCOUNT && HasBit(m, SetBitsFrom(m, i)[k])
    ensures forall k, k' :: 0 <= k < k' < |SetBitsFrom(m, i)| ==> SetBitsFrom(m, i)[k] < SetBitsFrom(m, i)[k']
    ensures forall b :: i <= b < MASK_BITCOUNT && HasBit(m, b) ==> b in SetBitsFrom(m, i)
    decreases MASK_BITCOUNT - i
  {
    if i < MASK_BITCOUNT {
      SetBitsFromSpec(m, i + 1);
      var rest := SetBitsFrom(m, i + 1);
      if HasBit(m, i) {
        var bits := [i] + rest;
        forall k | 0 < k < |bits|
          ensures bits[k] == rest[k - 1]
        {
        }
      }
    }
  }

  /** Words separated by single spaces. */
  function Join(ws: seq<seq<char>>): seq<char> {
    if ws == [] then []
    else if |ws| == 1 then ws[0]
    else ws[0] + [' '] + Join(ws[1..])
  }

  function Decimals(bits: seq<nat>): (ws: seq<seq<char>>)
    ensures |ws| == |bits|
  {
    seq(|bits|, k requires 0 <= k < |bits| => Decimal(bits[k]))
  }

  /** The loop of `mConvertMaskToString` from bit `i` on; `first` is false once a number was printed. */
  function MaskBitsFrom(mask: BitMask, i: nat, first: bool): seq<char>
    requires i <= MASK_BITCOUNT
    decreases MASK_BITCOUNT - i
  {
    if i == MASK_BITCOUNT then []
    else if HasBit(mask, i) then (if first then [] else [' ']) + Decimal(i) + MaskBitsFrom(mask, i + 1, false)
    else MaskBitsFrom(mask, i + 1, first)
  }

  lemma JoinCons(w: seq<char>, ws: seq<seq<char>>)
    ensures Join([w] + ws) == w + (if ws == [] then [] else [' '] + Join(ws))
  {
    assert ([w] + ws)[1..] == ws;
  }

  /** Printing one more number in front of the rest. */
  lemma JoinDecimalsCons(i: nat, rest: seq<nat>, first: bool)
    ensures var pre: seq<char> := if first then [] else [' '];
      pre + Decimal(i) + ((if rest == [] then [] else [' ']) + Join(Decimals(rest)))
        == pre + Join(Decimals([i] + rest))
  {
    var pre: seq<char> := if first then [] else [' '];
    var ds := Decimals(rest);
    var x := (if rest == [] then [] else [' ']) + Join(ds);
    assert Decimals([i] + rest) == [Decimal(i)] + ds;
    JoinCons(Decimal(i), ds);
    assert x == (if ds == [] then [] else [' '] + Join(ds));
    assert Join(Decimals([i] + rest)) == Decimal(i) + x;
    assert pre + Decimal(i) + x == pre + (Decimal(i) + x);
  }

  lemma {:induction false} MaskBitsFromIsJoin(mask: BitMask, i: nat, first: bool)
    requires i <= MASK_BITCOUNT
    ensures var bits := SetBitsFrom(mask, i);
      MaskBitsFrom(mask, i, first) == (if first || bits == [] then [] else [' ']) + Join(Decimals(bits))
    decreases MASK_BITCOUNT - i
  {
    if i < MASK_BITCOUNT {
      if HasBit(mask, i) {
        MaskBitsFromIsJoin(mask, i + 1, false);
        MaskBitsFromSet(mask, i, first);
      } else {
        MaskBitsFromIsJoin(mask, i + 1, first);
      }
    }
  }

  /** The set-bit step of `MaskBitsFromIsJoin`. */
  lemma MaskBitsFromSet(mask: BitMask, i: nat, first: bool)
    requires i < MASK_BITCOUNT && HasBit(mask, i)
    requires var rest := SetBitsFrom(mask, i + 1);
      MaskBitsFrom(mask, i + 1, false) == (if rest == [] then [] else [' ']) + Join(Decimals(rest))
    ensures MaskBitsFrom(mask, i, first) == (if first then [] else [' ']) + Join(Decimals(SetBitsFrom(mask, i)))
  {
    var rest := SetBitsFrom(mask, i + 1);
    assert SetBitsFrom(mask, i) == [i] + rest;
    JoinDecimalsCons(i, rest, first);
  }

  /**
    `mConvertMaskToString`: "none" for an empty mask, otherwise the numbers of
    the set bits in increasing order, separated by single spaces.
  */
  function ConvertMaskToString(mask: BitMask): (r: seq<char>)
    ensures mask == MASK_NONE ==> r == "none"
    ensures mask != MASK_NONE ==> r == Join(Decimals(SetBitsFrom(mask, 0)))
  {
    MaskBitsFromIsJoin(mask, 0, true);
    if mask == MASK_NONE then "none" else MaskBitsFrom(mask, 0, true)
  }

  // ---------------------------------------------------------------------------
  //   Round trip
  // ---------------------------------------------------------------------------

  /** Setting the listed bits of `m` in an empty mask rebuilds `m`. */
  lemma FoldSetBits(m: BitMask)
    ensures FoldMask(MASK_NONE, SetBitsFrom(m, 0)) == m
  {
    var r := FoldMask(MASK_NONE, SetBitsFrom(m, 0));
    SetBitsFromSpec(m, 0);
    forall b: nat | b < MASK_BITCOUNT
      ensures b in r <==> b in m
    {
      var bits := SetBitsFrom(m, 0);
      FoldMaskBits(MASK_NONE, bits, b);
      assert b in r <==> b in bits;
      if b in bits {
        var k :| 0 <= k < |bits| && bits[k] == b;
        assert HasBit(m, b);
      }
      if b in m {
        assert HasBit(m, b);
        assert b in bits;
      }
    }
  }

  /** `b` lists the runs of `a` moved `c` positions right. */
  predicate Shifted(a: seq<Run>, b: seq<Run>, c: nat) {
    |a| == |b| && forall k :: 0 <= k < |a| ==> b[k] == Run(a[k].start + c, a[k].end + c)
  }

  lemma ShiftedCons(x: Run, a: seq<Run>, b: seq<Run>, c: nat)
    requires Shifted(a, b, c)
    ensures Shifted([x] + a, [Run(x.start + c, x.end + c)] + b, c)
  {
    var a' := [x] + a;
    var b' := [Run(x.start + c, x.end + c)] + b;
    forall k | 0 <= k < |a'|
      ensures b'[k] == Run(a'[k].start + c, a'[k].end + c)
    {
      if k > 0 {
        assert a'[k] == a[k - 1] && b'[k] == b[k - 1];
      }
    }
  }

  /** The runs of a text do not depend on where it starts, up to the shift. */
  lemma {:induction false} RunsShift(t: seq<char>, base: nat, c: nat)
    ensures Shifted(RunsFrom(t, base), RunsFrom(t, base + c), c)
    decreases |t|
  {
    if t != [] {
      if IsSeparator(t[0]) {
        RunsShift(t[1..], base + 1, c);
        ShiftSeparator(t, base, c);
      } else {
        var n := RunLength(t);
        RunsShift(t[n..], base + n, c);
        ShiftRun(t, base, c);
      }
    }
  }

  lemma RunsShiftStart(t: seq<char>, c: nat)
    ensures Shifted(Runs(t), RunsFrom(t, c), c)
  {
    RunsShift(t, 0, c);
  }

  lemma ShiftSeparator(t: seq<char>, base: nat, c: nat)
    requires t != [] && IsSeparator(t[0])
    requires Shifted(RunsFrom(t[1..], base + 1), RunsFrom(t[1..], base + 1 + c), c)
    ensures Shifted(RunsFrom(t, base), RunsFrom(t, base + c), c)
  {
    assert RunsFrom(t, base) == RunsFrom(t[1..], base + 1);
    assert RunsFrom(t, base + c) == RunsFrom(t[1..], base + c + 1);
  }

  lemma ShiftRun(t: seq<char>, base: nat, c: nat)
    requires t != [] && !IsSeparator(t[0])
    requires var n := RunLength(t);
      Shifted(RunsFrom(t[n..], base + n), RunsFrom(t[n..], base + n + c), c)
    ensures Shifted(RunsFrom(t, base), RunsFrom(t, base + c), c)
  {
    var n := RunLength(t);
    assert RunsFrom(t, base) == [Run(base, base + n)] + RunsFrom(t[n..], base + n);
    assert RunsFrom(t, base + c) == [Run(base + c, base + c + n)] + RunsFrom(t[n..], base + c + n);
    ShiftedCons(Run(base, base + n), RunsFrom(t[n..], base + n), RunsFrom(t[n..], base + n + c), c);
  }

  lemma JoinNonEmpty(ws: seq<seq<char>>)
    requires ws != [] && ws[0] != []
    ensures Join(ws) != [] && Join(ws)[0] == ws[0][0]
  {
  }

  /** A word without separators is one element. */
  predicate IsWord(w: seq<char>) {
    w != [] && forall i :: 0 <= i < |w| ==> !IsSeparator(w[i])
  }

  /** A single word is its own only element. */
  lemma ElementsOfWord(w: seq<char>)
    requires IsWord(w)
    ensures Elements(w) == [w]
  {
    RunsFromWord(w, 0, |w|);
    assert w[0..] == w && w[|w|..] == [];
    assert RunsFrom(w[|w|..], |w|) == [];
    assert Runs(w) == [Run(0, |w|)];
    assert Elements(w)[0] == w[0..|w|] == w;
  }

  /** The runs of a word, a space and more text. */
  lemma RunsOfCons(w: seq<char>, t: seq<char>)
    requires IsWord(w)
    ensures Runs(w + [' '] + t) == [Run(0, |w|)] + RunsFrom(t, |w| + 1)
  {
    var j := w + [' '] + t;
    assert j[0..] == j;
    RunsFromWord(j, 0, |w|);
    RunsFromSeparator(j, |w|);
    assert j[|w| + 1..] == t;
  }

  /** Elements of a word, a space and more text: the word, then the elements of the text. */
  lemma ElementsOfCons(w: seq<char>, t: seq<char>)
    requires IsWord(w) && t != []
    ensures Elements(w + [' '] + t) == [w] + Elements(t)
  {
    var j := w + [' '] + t;
    RunsOfCons(w, t);
    ElementOfConsAt(w, t, 0);
    forall k | 0 <= k < |Runs(j)|
      ensures Elements(j)[k] == ([w] + Elements(t))[k]
    {
      ElementOfConsAt(w, t, k);
    }
  }

  lemma ElementOfConsAt(w: seq<char>, t: seq<char>, k: nat)
    requires IsWord(w) && t != []
    requires Runs(w + [' '] + t) == [Run(0, |w|)] + RunsFrom(t, |w| + 1)
    requires k < |Runs(w + [' '] + t)|
    ensures |Runs(w + [' '] + t)| == 1 + |Runs(t)|
    ensures Elements(w + [' '] + t)[k] == ([w] + Elements(t))[k]
  {
    RunsShiftStart(t, |w| + 1);
    var j := w + [' '] + t;
    assert |Runs(j)| == 1 + |Runs(t)|;
    if k == 0 {
      ElementOfConsHead(w, t);
      assert ([w] + Elements(t))[0] == w;
    } else {
      ElementOfConsTail(w, t, k);
      assert ([w] + Elements(t))[k] == Elements(t)[k - 1];
    }
  }

  lemma ElementOfConsHead(w: seq<char>, t: seq<char>)
    requires IsWord(w) && t != []
    requires Runs(w + [' '] + t) == [Run(0, |w|)] + RunsFrom(t, |w| + 1)
    ensures Elements(w + [' '] + t)[0] == w
  {
    var j := w + [' '] + t;
    ElementsAt(j, 0);
    assert Runs(j)[0] == Run(0, |w|);
    assert j[0..|w|] == w;
  }

  lemma ElementOfConsTail(w: seq<char>, t: seq<char>, k: nat)
    requires IsWord(w) && 0 < k
    requires Runs(w + [' '] + t) == [Run(0, |w|)] + RunsFrom(t, |w| + 1)
    requires Shifted(Runs(t), RunsFrom(t, |w| + 1), |w| + 1)
    requires k < |Runs(w + [' '] + t)|
    ensures Elements(w + [' '] + t)[k] == Elements(t)[k - 1]
  {
    var p := w + [' '];
    var j := p + t;
    var c := |p|;
    var r := Runs(t)[k - 1];
    assert r.start <= r.end <= |t|;
    assert Runs(j)[k] == Run(r.start + c, r.end + c) by {
      assert Runs(j)[k] == RunsFrom(t, c)[k - 1];
    }
    assert Elements(j)[k] == ElementText(p + t, Run(r.start + c, r.end + c)) by {
      ElementsAt(j, k);
    }
    assert Elements(t)[k - 1] == ElementText(t, r) by {
      ElementsAt(t, k - 1);
    }
    ElementTextShift(p, t, r);
  }

  /** Text after a prefix has the same element text, shifted by the prefix. */
  lemma ElementTextShift(p: seq<char>, t: seq<char>, r: Run)
    requires r.start <= r.end <= |t|
    ensures ElementText(p + t, Run(r.start + |p|, r.end + |p|)) == ElementText(t, r)
  {
    var c := |p|;
    if r.end + 1 == |t| {
      assert (p + t)[r.start + c..] == t[r.start..];
    } else {
      assert (p + t)[r.start + c..r.end + c] == t[r.start..r.end];
    }
  }

  /** Splitting words joined by single spaces gives the words back. */
  lemma {:induction false} ElementsOfJoin(ws: seq<seq<char>>)
    requires ws != []
    requires forall k :: 0 <= k < |ws| ==> IsWord(ws[k])
    ensures Elements(Join(ws)) == ws
  {
    if |ws| == 1 {
      ElementsOfWord(ws[0]);
    } else {
      ElementsOfJoin(ws[1..]);
      JoinNonEmpty(ws[1..]);
      ElementsOfCons(ws[0], Join(ws[1..]));
      assert ws == [ws[0]] + ws[1..];
    }
  }

  /** Reading back a printed mask gives the mask. */
  lemma MaskRoundTrip(m: BitMask)
    ensures ConvertStringToMask(ConvertMaskToString(m)) == m
  {
    if m == MASK_NONE {
      NoneRoundTrip();
    } else {
      var bits := SetBitsFrom(m, 0);
      var s := ConvertMaskToString(m);
      PrintedBits(m);
      FoldSetBits(m);
      assert ConvertStringToMask(s) == FoldMask(MASK_NONE, bits);
    }
  }

  /** "none" reads back as the empty mask. */
  lemma NoneRoundTrip()
    ensures ConvertStringToMask("none") == MASK_NONE
  {
    ElementsOfJoin(["none"]);
    assert |Runs("none")| == 1;
    assert !EqualsIgnoreCase("none", "all");
    assert EqualsIgnoreCase("none", "none");
  }

  /** The text printed for a non-empty mask is not a mask name, and its elements read as the set bits. */
  lemma PrintedBits(m: BitMask)
    requires m != MASK_NONE
    ensures !IsNamedMask(ConvertMaskToString(m))
    ensures ElementValues(ConvertMaskToString(m)) == SetBitsFrom(m, 0)
  {
    var bits := SetBitsFrom(m, 0);
    var ws := Decimals(bits);
    var s := ConvertMaskToString(m);
    assert bits != [] by {
      FoldSetBits(m);
    }
    ElementsOfJoin(ws);
    JoinNonEmpty(ws);
    assert IsDigit(s[0]);
    assert !EqualsIgnoreCase(s, "all") && !EqualsIgnoreCase(s, "none") && !EqualsIgnoreCase(s, "off") by {
      assert ToLower(s[0]) == s[0];
    }
    forall k | 0 <= k < |bits|
      ensures ElementValues(s)[k] == bits[k]
    {
      assert Elements(s)[k] == ws[k] == Decimal(bits[k]);
      AtoiOfDecimal(bits[k]);
    }
  }
}
