/** Decimal numbers, substring search and splitting of strings: `chxint4`, `chxnum`,
    `chxindex`, `chxbreak`, and the "%d" of `chxformat`. */
module Numbers {
  import opened Text

  const ZERO := 48

  predicate Digit(c: int) {
    ZERO <= c <= ZERO + 9
  }

  /** Decimal digits of `n`. */
  function Decimal(n: nat): (r: Text)
    ensures r != [] && forall k :: 0 <= k < |r| ==> Digit(r[k])
  {
    if n < 10 then [ZERO + n] else Decimal(n / 10) + [ZERO + n % 10]
  }

  /** Value of the digits `t[i..j]`. */
  function DigitsValue(t: Text, i: nat, j: nat): int
    requires i <= j <= |t|
    decreases j
  {
    if i == j then 0 else 10 * DigitsValue(t, i, j - 1) + (t[j - 1] - ZERO)
  }

  function DigitsEnd(t: Text, i: nat): (r: nat)
    requires i <= |t|
    ensures i <= r <= |t|
    ensures forall k :: i <= k < r ==> Digit(t[k])
    ensures r < |t| ==> !Digit(t[r])
    decreases |t| - i
  {
    if i < |t| && Digit(t[i]) then DigitsEnd(t, i + 1) else i
  }

  /** Where the sign, if any, of the number at `i` ends. */
  function SignEnd(t: Text, i: nat): (r: nat)
    requires i <= |t|
    ensures i <= r <= |t|
  {
    if i < |t| && (t[i] == MINUS || t[i] == PLUS) then i + 1 else i
  }

  /** A signed number at position `i`, after blanks: its value, and the position after
      it; 0 and `i` itself when there is no number. */
  function Int4(t: Text, i: nat, blanks: set<int>): (r: (int, nat))
    requires i <= |t|
    ensures r.1 <= |t|
  {
    var s := SkipBlanks(t, i, blanks);
    var d := SignEnd(t, s);
    var e := DigitsEnd(t, d);
    if d == e then (0, i)
    else (if t[s] == MINUS then -DigitsValue(t, d, e) else DigitsValue(t, d, e), e)
  }

  lemma OneMoreDigit(t: Text, i: nat, j: nat)
    requires i <= j < |t|
    ensures DigitsValue(t, i, j + 1) == 10 * DigitsValue(t, i, j) + (t[j] - ZERO)
  {
  }

  lemma NoDigits(t: Text, i: nat)
    requires i <= |t|
    ensures DigitsValue(t, i, i) == 0
  {
  }

  lemma DigitsEndIs(t: Text, i: nat, r: nat)
    requires i <= r <= |t|
    requires forall k :: i <= k < r ==> Digit(t[k])
    requires r < |t| ==> !Digit(t[r])
    ensures DigitsEnd(t, i) == r
  {
  }

  method ChxInt4(a: Text, i: nat, blanks: set<int>) returns (value: int, newpos: nat)
    requires i <= |a|
    ensures (value, newpos) == Int4(a, i, blanks)
  {
    hide SkipBlanks, DigitsEnd, DigitsValue;
    var j := i;
    while j < |a| && a[j] in blanks
      invariant i <= j <= |a|
      invariant forall k :: i <= k < j ==> a[k] in blanks
    {
      j := j + 1;
    }
    SkipIs(a, i, j, blanks);
    var minus := false;
    var sign := if j < |a| then a[j] else 0;
    if sign == MINUS { j := j + 1; minus := true; }
    if sign == PLUS { j := j + 1; }
    var j0 := j;
    NoDigits(a, j0);
    var result := 0;
    while j < |a| && Digit(a[j])
      invariant j0 <= j <= |a|
      invariant forall k :: j0 <= k < j ==> Digit(a[k])
      invariant result == DigitsValue(a, j0, j)
    {
      OneMoreDigit(a, j0, j);
      result := 10 * result + (a[j] - ZERO);
      j := j + 1;
    }
    DigitsEndIs(a, j0, j);
    if j0 == j { return 0, i; }
    newpos := j;
    value := if minus then -result else result;
  }

  // -------------------------------------------------- printed numbers read back

  lemma {:induction false} DigitsValuePrefix(a: Text, b: Text, i: nat, j: nat)
    requires i <= j <= |a|
    ensures DigitsValue(a + b, i, j) == DigitsValue(a, i, j)
    decreases j
  {
    if i < j {
      DigitsValuePrefix(a, b, i, j - 1);
      assert (a + b)[j - 1] == a[j - 1];
    }
  }

  /** Reading the decimal digits of `n`, wherever they stand, gives `n` back. */
  lemma {:induction false} DecimalValue(p: Text, n: nat)
    ensures DigitsValue(p + Decimal(n), |p|, |p + Decimal(n)|) == n
    decreases n
  {
    var t := p + Decimal(n);
    if n < 10 {
      assert DigitsValue(t, |p|, |p|) == 0;
      assert t[|p|] == ZERO + n;
    } else {
      var q := p + Decimal(n / 10);
      DecimalValue(p, n / 10);
      assert t == q + [ZERO + n % 10];
      DigitsValuePrefix(q, [ZERO + n % 10], |p|, |q|);
      assert t[|q|] == ZERO + n % 10;
    }
  }

  /** Numbers without a sign are read back, */
  lemma UnsignedDecimal(n: nat, blanks: set<int>)
    requires forall k :: Digit(k) ==> k !in blanks
    ensures Int4(Decimal(n), 0, blanks) == (n, |Decimal(n)|)
  {
    var t := Decimal(n);
    DecimalValue([], n);
    assert [] + t == t;
    SkipIs(t, 0, 0, blanks);
    assert Digit(t[0]) && DigitsEnd(t, 0) == |t|;
  }

  /** and those with a minus sign. */
  lemma NegativeDecimal(n: nat, blanks: set<int>)
    requires MINUS !in blanks
    ensures var r := Int4([MINUS] + Decimal(n), 0, blanks); r.0 + n == 0 && r.1 == 1 + |Decimal(n)|
  {
    var t := [MINUS] + Decimal(n);
    DecimalValue([MINUS], n);
    SkipIs(t, 0, 0, blanks);
    assert forall k :: 1 <= k < |t| ==> t[k] == Decimal(n)[k - 1];
    DigitsEndIs(t, 1, |t|);
  }

  /** "+<n>" is read as `n`. */
  lemma SignedDecimal(n: nat, blanks: set<int>)
    requires PLUS !in blanks
    ensures Int4([PLUS] + Decimal(n), 0, blanks) == (n, 1 + |Decimal(n)|)
  {
    var t := [PLUS] + Decimal(n);
    DecimalValue([PLUS], n);
    assert SkipBlanks(t, 0, blanks) == 0;
    assert forall k :: 1 <= k < |t| ==> t[k] == Decimal(n)[k - 1];
    assert DigitsEnd(t, 1) == |t|;
  }

  // -------------------------------------------------- searching and breaking

  predicate MatchAt(x: Text, i: int, y: Text) {
    0 <= i <= i + |y| <= |x| && x[i..i + |y|] == y
  }

  /** The least position at or after `pos` where `y` occurs in `x`; -1 if there is none,
      and for an empty `y`. */
  function Index(x: Text, pos: nat, y: Text): (r: int)
    ensures r == -1 || (pos <= r < |x| && y != [] && MatchAt(x, r, y))
    ensures r != -1 ==> forall k :: pos <= k < r ==> !MatchAt(x, k, y)
    ensures r == -1 && y != [] ==> forall k :: pos <= k ==> !MatchAt(x, k, y)
    decreases |x| - pos
  {
    if y == [] || pos >= |x| then -1
    else if MatchAt(x, pos, y) then pos
    else Index(x, pos + 1, y)
  }

  /** Splits `a` at the first occurrence of `pat`. */
  method ChxBreak(a: Text, pat: Text) returns (ok: bool, fore: Text, aft: Text)
    ensures ok <==> Index(a, 0, pat) >= 0
    ensures ok ==> a == fore + pat + aft && |fore| == Index(a, 0, pat)
    ensures !ok ==> fore == a && aft == []
  {
    var i := Index(a, 0, pat);
    if i < 0 { return false, a, []; }
    fore := a[..i];
    aft := a[i + |pat|..];
    ok := true;
    assert a == a[..i] + a[i..i + |pat|] + a[i + |pat|..];
  }

  /** Breaking at a character that the first part does not hold gives back both parts. */
  lemma BreakAtFirst(fore: Text, c: int, aft: Text)
    requires c !in fore
    ensures Index(fore + [c] + aft, 0, [c]) == |fore|
  {
    var a := fore + [c] + aft;
    assert a[|fore|..|fore| + 1] == [c];
    assert MatchAt(a, |fore|, [c]);
    forall k | 0 <= k < |fore|
      ensures !MatchAt(a, k, [c])
    {
      assert a[k..k + 1][0] == fore[k];
    }
  }

  /** Blanks before a number are passed over, and it ends where the digits end. */
  lemma NumberIs(before: Text, n: nat, rest: Text, blanks: set<int>)
    requires (forall k :: 0 <= k < |before| ==> before[k] in blanks) && (forall k :: Digit(k) ==> k !in blanks)
    requires rest == [] || !Digit(rest[0])
    ensures Int4(before + Decimal(n) + rest, 0, blanks) == (n, |before| + |Decimal(n)|)
  {
    hide SkipBlanks, DigitsEnd, DigitsValue, Decimal;
    var d := Decimal(n);
    var t, s, e := before + d + rest, |before|, |before| + |d|;
    assert forall k :: s <= k < e ==> t[k] == d[k - s];
    assert t[s] == d[0] && Digit(d[0]);
    SkipIs(t, 0, s, blanks);
    DigitsEndIs(t, s, e);
    DecimalValue(before, n);
    DigitsValuePrefix(before + d, rest, s, e);
  }

  /** Where there are no digits there is no number, and nothing is passed over. */
  lemma NoNumber(t: Text, blanks: set<int>)
    requires forall k :: 0 <= k < |t| ==> !Digit(t[k])
    ensures Int4(t, 0, blanks) == (0, 0)
  {
  }
}
