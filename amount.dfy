/** Money amounts in the statement text: the regex fragment `[\d,]+\.\d{2}` and the
    `float(value.replace(',', ''))` applied to what it captures, in integer cents. */
module Amount {
  import opened Wrappers
  import opened Text

  /** `[\d,]`. */
  predicate IsAmountChar(c: char) {
    IsDigit(c) || c == ','
  }

  /** Text of the shape `[\d,]+\.\d{2}`. */
  predicate IsAmount(t: string) {
    && |t| >= 4
    && (forall i :: 0 <= i < |t| - 3 ==> IsAmountChar(t[i]))
    && t[|t| - 3] == '.'
    && IsDigit(t[|t| - 2]) && IsDigit(t[|t| - 1])
  }

  /** End of the longest run of `[\d,]` starting at `q`. */
  function RunEnd(s: string, q: nat): (e: nat)
    requires q <= |s|
    ensures q <= e <= |s|
    ensures forall i :: q <= i < e ==> IsAmountChar(s[i])
    ensures e == |s| || !IsAmountChar(s[e])
    decreases |s| - q
  {
    if q < |s| && IsAmountChar(s[q]) then RunEnd(s, q + 1) else q
  }

  /** Where a match of `[\d,]+\.\d{2}` starting at `q` ends. The greedy run can give back
      only digits and commas, and none of them is the `.` that must follow it, so the
      run is kept whole and the match, when there is one, is unique. */
  function AmountAt(s: string, q: nat): (r: Option<nat>)
    requires q <= |s|
    ensures r.Some? ==> q + 4 <= r.value <= |s|
  {
    var e := RunEnd(s, q);
    if e > q && e + 3 <= |s| && s[e] == '.' && IsDigit(s[e + 1]) && IsDigit(s[e + 2]) then Some(e + 3)
    else None
  }

  /** What the amount fragment matches has the amount's shape. */
  lemma AmountAtShape(s: string, q: nat)
    requires q <= |s| && AmountAt(s, q).Some?
    ensures IsAmount(s[q..AmountAt(s, q).value])
  {
    var e := RunEnd(s, q);
    var t := s[q..e + 3];
    assert forall i :: 0 <= i < |t| ==> t[i] == s[q + i];
  }

  /** The amount fragment matches from `q` to `e` exactly when the text between has its shape. */
  lemma AmountAtExactly(s: string, q: nat, e: nat)
    requires q <= e <= |s|
    ensures AmountAt(s, q) == Some(e) <==> IsAmount(s[q..e])
  {
    var t := s[q..e];
    if IsAmount(t) {
      assert forall i :: q <= i < e - 3 ==> s[i] == t[i - q];
      assert s[e - 3] == t[|t| - 3];
      RunEndAt(s, q, e - 3);
    }
  }

  lemma {:induction false} RunEndAt(s: string, q: nat, e: nat)
    requires q <= e < |s|
    requires forall i :: q <= i < e ==> IsAmountChar(s[i])
    requires !IsAmountChar(s[e])
    ensures RunEnd(s, q) == e
    decreases e - q
  {
    if q < e {
      RunEndAt(s, q + 1, e);
    }
  }

  /** `float(value_str.replace(',', ''))` for text of the amount's shape, in cents. */
  function Cents(t: string): nat
    requires IsAmount(t)
  {
    DigitsValue(RemoveChar(t[..|t| - 3], ',')) * 100 + DigitsValue(t[|t| - 2..])
  }

  /** `float(value_str.replace(',', ''))` for text of the shape `-?[\d,]+\.\d{2}`. */
  function SignedCents(t: string): int
    requires IsAmount(t) || (|t| > 0 && t[0] == '-' && IsAmount(t[1..]))
  {
    if t[0] == '-' then -(Cents(t[1..]) as int) else Cents(t)
  }

  /** A whole part and two decimals written the way the statements print amounts,
      without separators. */
  function RenderAmount(whole: nat, frac: nat): (t: string)
    requires frac < 100
    ensures IsAmount(t)
  {
    var t := NatToString(whole) + "." + Pad2(frac);
    assert forall i :: 0 <= i < |t| - 3 ==> t[i] == NatToString(whole)[i];
    t
  }

  /** A number of cents as the statements print it. */
  function RenderCents(c: nat): (t: string)
    ensures IsAmount(t)
  {
    RenderAmount(c / 100, c % 100)
  }

  lemma RenderAmountValue(whole: nat, frac: nat)
    requires frac < 100
    ensures Cents(RenderAmount(whole, frac)) == whole * 100 + frac
  {
    var w := NatToString(whole);
    var t := RenderAmount(whole, frac);
    assert t[..|t| - 3] == w;
    assert t[|t| - 2..] == Pad2(frac);
    assert forall i :: 0 <= i < |w| ==> w[i] != ',' by {
      assert AllDigits(w);
    }
    RemoveAbsentChar(w, ',');
    NatToStringRoundTrip(whole);
    Pad2Digits(frac);
  }

  /** Reading a rendered amount gives back its cents. */
  lemma RenderCentsRoundTrip(c: nat)
    ensures Cents(RenderCents(c)) == c
  {
    RenderAmountValue(c / 100, c % 100);
  }

  /** A comma anywhere in the whole part, such as a thousands separator, changes neither the
      shape nor the value. */
  lemma CommaIgnored(t: string, i: nat)
    requires IsAmount(t) && i <= |t| - 3
    ensures IsAmount(t[..i] + "," + t[i..])
    ensures Cents(t[..i] + "," + t[i..]) == Cents(t)
  {
    var u := t[..i] + "," + t[i..];
    CommaKeepsShape(t, i);
    var whole := t[..|t| - 3];
    InsertedCommaSlices(t, i);
    RemoveInsertedComma(whole, i);
  }

  lemma InsertedCommaSlices(t: string, i: nat)
    requires |t| >= 3 && i <= |t| - 3
    ensures var u := t[..i] + "," + t[i..];
      && u[..|u| - 3] == t[..|t| - 3][..i] + "," + t[..|t| - 3][i..]
      && u[|u| - 2..] == t[|t| - 2..]
  {
    var u := t[..i] + "," + t[i..];
    var w := t[..|t| - 3];
    var v := w[..i] + "," + w[i..];
    assert |u[..|u| - 3]| == |v|;
    forall k | 0 <= k < |v|
      ensures u[k] == v[k]
    {
      if k < i {
        assert u[k] == t[k] && v[k] == w[k];
      } else if k > i {
        assert u[k] == t[k - 1] && v[k] == w[k - 1];
      }
    }
    assert u[..|u| - 3] == v;
    assert u[|u| - 2..] == [u[|u| - 2], u[|u| - 1]];
    assert t[|t| - 2..] == [t[|t| - 2], t[|t| - 1]];
    assert u[|u| - 2] == t[|t| - 2] && u[|u| - 1] == t[|t| - 1];
  }

  lemma CommaKeepsShape(t: string, i: nat)
    requires IsAmount(t) && i <= |t| - 3
    ensures IsAmount(t[..i] + "," + t[i..])
  {
    var u := t[..i] + "," + t[i..];
    assert |u| == |t| + 1;
    forall k | 0 <= k < |u| - 3
      ensures IsAmountChar(u[k])
    {
      if k < i { assert u[k] == t[k]; }
      else if k > i { assert u[k] == t[k - 1]; }
    }
    assert u[|u| - 3] == t[|t| - 3];
    assert u[|u| - 2] == t[|t| - 2];
    assert u[|u| - 1] == t[|t| - 1];
  }

  lemma RemoveInsertedComma(w: string, i: nat)
    requires i <= |w|
    ensures RemoveChar(w[..i] + "," + w[i..], ',') == RemoveChar(w, ',')
  {
    var a, b := w[..i], w[i..];
    assert w == a + b;
    RemoveCharAppend(a + ",", b, ',');
    RemoveCharAppend(a, ",", ',');
    RemoveCharAppend(a, b, ',');
    assert RemoveChar(",", ',') == [] by {
      assert ","[..0] == [];
    }
    assert RemoveChar(a, ',') + [] == RemoveChar(a, ',');
  }

  /** Text of the amount's shape, followed by anything, is matched exactly over its own
      characters: what follows its two decimals cannot extend the match. */
  lemma AmountPrefixAt(s: string, q: nat, t: string)
    requires IsAmount(t)
    requires q + |t| <= |s| && s[q..q + |t|] == t
    ensures AmountAt(s, q) == Some(q + |t|)
  {
    AmountAtExactly(s, q, q + |t|);
  }

  /** The value in cents of the amount the fragment matches at `q`. */
  function AmountValue(s: string, q: nat): nat
    requires q <= |s| && AmountAt(s, q).Some?
  {
    AmountAtShape(s, q);
    Cents(s[q..AmountAt(s, q).value])
  }

  /** Text of the amount's shape at `q` is read as its own value. */
  lemma AmountValuePrefix(s: string, q: nat, t: string)
    requires IsAmount(t)
    requires q + |t| <= |s| && s[q..q + |t|] == t
    ensures AmountAt(s, q) == Some(q + |t|) && AmountValue(s, q) == Cents(t)
  {
    AmountPrefixAt(s, q, t);
    assert s[q..AmountAt(s, q).value] == t;
  }
}
