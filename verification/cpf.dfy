/** `validateCPF` (static/js/main.js:394-428): the Brazilian taxpayer number. The
    input is reduced to its ASCII digits; eleven of them, not all the same, whose
    last two are the two modulo-11 check digits of the ones before, are accepted. */
module Cpf {
  import opened Basics

  /** `cpf.replace(/[^\d]+/g, '')`: the ASCII digits of `s`, in their order. */
  function OnlyDigits(s: string): (r: string)
    ensures |r| <= |s|
    ensures AllDigits(r)
  {
    if |s| == 0 then ""
    else if IsDigit(s[0]) then [s[0]] + OnlyDigits(s[1..])
    else OnlyDigits(s[1..])
  }

  /** The ten strings the source rejects one by one. */
  const RepeatedLiterals: seq<string> := [
    "00000000000", "11111111111", "22222222222", "33333333333", "44444444444",
    "55555555555", "66666666666", "77777777777", "88888888888", "99999999999"]

  /** Eleven copies of one character. */
  function Rep(c: char): (r: string)
    ensures |r| == 11 && forall i :: 0 <= i < 11 ==> r[i] == c
    ensures IsDigit(c) ==> AllDigits(r)
  {
    [c, c, c, c, c, c, c, c, c, c, c]
  }

  /** Every character of `s` equals its first. */
  predicate AllSame(s: string) {
    forall i :: 0 <= i < |s| ==> s[i] == s[0]
  }

  /** The digit sum `d[0]·top + d[1]·(top-1) + …` over the first `n` digits. */
  function WeightedSum(d: string, n: nat, top: nat): nat
    requires n <= |d| && n <= top && AllDigits(d)
  {
    if n == 0 then 0 else
      var w: nat := top - (n - 1);
      var v: nat := DigitValue(d[n - 1]);
      WeightedSum(d, n - 1, top) + Mul(v, w)
  }

  /** A product kept behind a name, so that the sums above stay linear for the solver. */
  function Mul(a: nat, b: nat): nat {
    a * b
  }

  /** Adding a multiple of 11 does not change the remainder modulo 11. */
  lemma ModAfterMultiple(k: nat, x: nat)
    ensures (11 * k + x) % 11 == x % 11
  {
    assert x == 11 * (x / 11) + x % 11;
    assert 11 * k + x == 11 * (k + x / 11) + x % 11;
  }

  /** `11 - (add % 11)`, with 10 and 11 turned into 0: always a single decimal digit. */
  function CheckDigit(sum: nat): (r: nat)
    ensures r <= 9
    ensures r == 0 <==> sum % 11 < 2
  {
    var rev := 11 - sum % 11;
    if rev == 10 || rev == 11 then 0 else rev
  }

  /** The two comparisons of the source, on an eleven-digit string. */
  predicate ChecksumsHold(d: string)
    requires |d| == 11 && AllDigits(d)
  {
    && CheckDigit(WeightedSum(d, 9, 10)) == DigitValue(d[9])
    && CheckDigit(WeightedSum(d, 10, 11)) == DigitValue(d[10])
  }

  /** The verdict on the stripped digit string. */
  predicate AcceptsDigits(d: string)
    requires AllDigits(d)
  {
    if d == "" then false
    else if |d| != 11 || d in RepeatedLiterals then false
    else ChecksumsHold(d)
  }

  /** `validateCPF(cpf)`. */
  function ValidateCpf(cpf: string): (ok: bool)
    ensures ok ==> |OnlyDigits(cpf)| == 11 && !AllSame(OnlyDigits(cpf))
  {
    AcceptsDigitsMeaning(OnlyDigits(cpf));
    AcceptsDigits(OnlyDigits(cpf))
  }

  /** An eleven-digit string is one of the ten literals exactly when all its digits
      are equal. */
  lemma RepeatedLiteralsAreAllSame(d: string)
    requires AllDigits(d)
    ensures |d| == 11 ==> (d in RepeatedLiterals <==> AllSame(d))
  {
    if |d| == 11 && AllSame(d) {
      assert d == Rep(d[0]);
      assert IsDigit(d[0]);
    }
  }

  /** The literal comparisons amount to excluding the repeated-digit strings. */
  lemma AcceptsDigitsMeaning(d: string)
    requires AllDigits(d)
    ensures AcceptsDigits(d) <==> |d| == 11 && !AllSame(d) && ChecksumsHold(d)
  {
    RepeatedLiteralsAreAllSame(d);
  }

  /** The same algorithm with the source's loops. */
  method ValidateCpfLoop(cpf: string) returns (ok: bool)
    ensures ok == ValidateCpf(cpf)
  {
    var d := "";
    for k := 0 to |cpf|
      invariant d == OnlyDigits(cpf[..k])
    {
      assert cpf[..k + 1] == cpf[..k] + [cpf[k]];
      OnlyDigitsAppend(cpf[..k], [cpf[k]]);
      if IsDigit(cpf[k]) {
        d := d + [cpf[k]];
      }
    }
    assert cpf[..|cpf|] == cpf;
    if d == "" {
      return false;
    }
    if |d| != 11 || d in RepeatedLiterals {
      return false;
    }
    var add := 0;
    for i := 0 to 9
      invariant add == WeightedSum(d, i, 10)
    {
      add := add + DigitValue(d[i]) * (10 - i);
    }
    var rev := 11 - add % 11;
    if rev == 10 || rev == 11 {
      rev := 0;
    }
    if rev != DigitValue(d[9]) {
      return false;
    }
    add := 0;
    for i := 0 to 10
      invariant add == WeightedSum(d, i, 11)
    {
      add := add + DigitValue(d[i]) * (11 - i);
    }
    rev := 11 - add % 11;
    if rev == 10 || rev == 11 {
      rev := 0;
    }
    if rev != DigitValue(d[10]) {
      return false;
    }
    return true;
  }

  /** Stripping distributes over concatenation. */
  lemma {:induction false} OnlyDigitsAppend(a: string, b: string)
    ensures OnlyDigits(a + b) == OnlyDigits(a) + OnlyDigits(b)
  {
    if |a| == 0 {
      assert a + b == b;
    } else {
      assert (a + b)[1..] == a[1..] + b;
      OnlyDigitsAppend(a[1..], b);
    }
  }

  /** A string of digits is left as it is. */
  lemma {:induction false} OnlyDigitsOfDigits(s: string)
    requires AllDigits(s)
    ensures OnlyDigits(s) == s
  {
    if |s| > 0 {
      OnlyDigitsOfDigits(s[1..]);
    }
  }

  /** The verdict depends only on the digit subsequence: the input and its digits
      alone are judged alike, and so are any two inputs with the same digits. */
  lemma ValidateCpfSeesOnlyDigits(s: string, t: string)
    ensures ValidateCpf(s) == ValidateCpf(OnlyDigits(s))
    ensures OnlyDigits(s) == OnlyDigits(t) ==> ValidateCpf(s) == ValidateCpf(t)
  {
    OnlyDigitsOfDigits(OnlyDigits(s));
  }

  /** Inserting a separator anywhere does not change the verdict. */
  lemma SeparatorIsIgnored(a: string, c: char, b: string)
    requires !IsDigit(c)
    ensures ValidateCpf(a + [c] + b) == ValidateCpf(a + b)
  {
    OnlyDigitsAppend(a + [c], b);
    OnlyDigitsAppend(a, [c]);
    OnlyDigitsAppend(a, b);
    assert OnlyDigits([c]) == "" by {
      assert [c][1..] == "";
    }
    assert OnlyDigits(a + [c] + b) == OnlyDigits(a + b);
  }

  /** `11 - (sum % 11)` with 10 and 11 sent to 0 is the textbook form
      `(10 · sum mod 11) mod 10`. */
  lemma CheckDigitClosedForm(sum: nat)
    ensures CheckDigit(sum) == (10 * sum) % 11 % 10
  {
    var q, r := sum / 11, sum % 11;
    assert sum == 11 * q + r;
    assert 10 * sum == 11 * (10 * q) + 10 * r;
    ModAfterMultiple(10 * q, 10 * r);
    if r > 0 {
      assert 10 * r == 11 * (r - 1) + (11 - r);
      ModAfterMultiple(r - 1, 11 - r);
    }
  }

  /** Accepted inputs have exactly eleven digits, are not one digit repeated, and
      carry the two check digits in the textbook form; and every such input is
      accepted. */
  lemma ValidateCpfMeaning(cpf: string)
    ensures var d := OnlyDigits(cpf);
      ValidateCpf(cpf) <==>
        && |d| == 11
        && !AllSame(d)
        && DigitValue(d[9]) == (10 * WeightedSum(d, 9, 10)) % 11 % 10
        && DigitValue(d[10]) == (10 * WeightedSum(d, 10, 11)) % 11 % 10
  {
    var d := OnlyDigits(cpf);
    RepeatedLiteralsAreAllSame(d);
    if |d| == 11 {
      CheckDigitClosedForm(WeightedSum(d, 9, 10));
      CheckDigitClosedForm(WeightedSum(d, 10, 11));
    }
  }

  /** The weighted sum reads only the first `n` digits. */
  lemma {:induction false} WeightedSumPrefix(d: string, e: string, n: nat, top: nat)
    requires n <= |d| && n <= |e| && n <= top && AllDigits(d) && AllDigits(e)
    requires d[..n] == e[..n]
    ensures WeightedSum(d, n, top) == WeightedSum(e, n, top)
  {
    if n > 0 {
      assert d[..n - 1] == d[..n][..n - 1] && e[..n - 1] == e[..n][..n - 1];
      assert d[n - 1] == d[..n][n - 1] && e[n - 1] == e[..n][n - 1];
      WeightedSumPrefix(d, e, n - 1, top);
    }
  }

  /** The last digit is determined by the first ten: changing only it turns an
      accepted number into a rejected one. */
  lemma ChangingLastDigitRejects(cpf: string, c: char)
    requires ValidateCpf(cpf)
    requires IsDigit(c) && c != OnlyDigits(cpf)[10]
    ensures !ValidateCpf(OnlyDigits(cpf)[..10] + [c])
  {
    var d := OnlyDigits(cpf);
    AcceptsDigitsMeaning(d);
    var e := d[..10] + [c];
    assert AllDigits(e);
    OnlyDigitsOfDigits(e);
    assert d[..10] == e[..10];
    WeightedSumPrefix(d, e, 10, 11);
    AcceptsDigitsMeaning(e);
  }

  /** Any two accepted numbers whose digits agree up to the last one agree on it. */
  lemma LastDigitIsDetermined(p: string, c1: char, c2: char)
    requires IsDigit(c1) && IsDigit(c2)
    requires ValidateCpf(p + [c1]) && ValidateCpf(p + [c2])
    ensures c1 == c2
  {
    OnlyDigitsAppend(p, [c1]);
    OnlyDigitsAppend(p, [c2]);
    var d1, d2 := OnlyDigits(p + [c1]), OnlyDigits(p + [c2]);
    assert OnlyDigits([c1]) == [c1] && OnlyDigits([c2]) == [c2];
    assert d1 == OnlyDigits(p) + [c1] && d2 == OnlyDigits(p) + [c2];
    AcceptsDigitsMeaning(d1);
    AcceptsDigitsMeaning(d2);
    assert d1[..10] == d2[..10];
    WeightedSumPrefix(d1, d2, 10, 11);
    assert d1[10] == c1 && d2[10] == c2;
  }

  /** The two check digits of a nine-digit base. */
  function Complete(base: string): (r: string)
    requires |base| == 9 && AllDigits(base)
    ensures |r| == 2 && AllDigits(base + r)
  {
    var c1 := DigitChar(CheckDigit(WeightedSum(base, 9, 10)));
    var c2 := DigitChar(CheckDigit(WeightedSum(base + [c1], 10, 11)));
    [c1, c2]
  }

  /** The completion of a base carries valid check digits. */
  lemma CompleteHasChecksums(base: string)
    requires |base| == 9 && AllDigits(base)
    ensures ChecksumsHold(base + Complete(base))
  {
    var d := base + Complete(base);
    var c1 := DigitChar(CheckDigit(WeightedSum(base, 9, 10)));
    assert d[..9] == base[..9];
    WeightedSumPrefix(d, base, 9, 10);
    assert d[..10] == (base + [c1])[..10];
    WeightedSumPrefix(d, base + [c1], 10, 11);
  }

  /** The completion of a repeated base repeats the same digit. */
  lemma CompleteOfRepeated(base: string)
    requires |base| == 9 && AllDigits(base) && AllSame(base)
    ensures AllSame(base + Complete(base))
  {
    var d := base + Complete(base);
    var r := Rep(base[0]);
    RepeatedPassesChecksums(base[0]);
    CompleteHasChecksums(base);
    assert r[..9] == d[..9];
    WeightedSumPrefix(r, d, 9, 10);
    assert DigitValue(d[9]) == DigitValue(base[0]);
    assert r[..10] == d[..10];
    WeightedSumPrefix(r, d, 10, 11);
    assert DigitValue(d[10]) == DigitValue(base[0]);
  }

  /** Completing a nine-digit base with its check digits yields an accepted number,
      unless the base is a single digit repeated, whose completion is rejected. */
  lemma CompleteIsAccepted(base: string)
    requires |base| == 9 && AllDigits(base)
    ensures ValidateCpf(base + Complete(base)) <==> !AllSame(base)
  {
    var d := base + Complete(base);
    OnlyDigitsOfDigits(d);
    CompleteHasChecksums(base);
    AcceptsDigitsMeaning(d);
    if AllSame(base) {
      CompleteOfRepeated(base);
    } else {
      var i :| 0 <= i < 9 && base[i] != base[0];
      assert d[i] != d[0];
    }
  }

  /** The sum of the weights `top, top-1, …` over `n` places. */
  function WeightTotal(n: nat, top: nat): nat
    requires n <= top
  {
    if n == 0 then 0 else WeightTotal(n - 1, top) + (top - (n - 1))
  }

  /** On a run of one digit the weighted sum is that digit times the weight total. */
  lemma {:induction false} WeightedSumOfRun(d: string, n: nat, top: nat, c: char)
    requires n <= |d| && n <= top && AllDigits(d) && IsDigit(c)
    requires forall i :: 0 <= i < n ==> d[i] == c
    ensures WeightedSum(d, n, top) == DigitValue(c) * WeightTotal(n, top)
  {
    if n > 0 {
      WeightedSumOfRun(d, n - 1, top, c);
    }
  }

  /** Every repeated-digit string carries valid check digits, so only the explicit
      exclusion keeps the ten of them out. */
  lemma RepeatedPassesChecksums(c: char)
    requires IsDigit(c)
    ensures ChecksumsHold(Rep(c))
  {
    var r := Rep(c);
    var v := DigitValue(c);
    WeightedSumOfRun(r, 9, 10, c);
    WeightedSumOfRun(r, 10, 11, c);
    CheckDigitOfRun(v, WeightTotal(9, 10));
    CheckDigitOfRun(v, WeightTotal(10, 11));
    assert r[9] == c && r[10] == c;
  }

  /** The weight totals of the two check digits are both 10 more than a multiple of
      11, so on a run of one digit each check digit is that digit again. */
  lemma CheckDigitOfRun(v: nat, total: nat)
    requires v <= 9
    requires total == WeightTotal(9, 10) || total == WeightTotal(10, 11)
    ensures CheckDigit(v * total) == v
  {
    assert WeightTotal(9, 10) == 54 && WeightTotal(10, 11) == 65;
    CheckDigitClosedForm(v * total);
    var k := if total == 54 then 49 * v else 59 * v;
    assert 10 * (v * total) == 11 * k + v;
    ModAfterMultiple(k, v);
  }

  lemma KnownNumberChecksums()
    ensures AllDigits("52998224725") && ChecksumsHold("52998224725")
  {
    assert AllDigits("52998224725");
    assert WeightedSum("52998224725", 9, 10) == 295;
    assert WeightedSum("52998224725", 10, 11) == 347;
  }

  /** A well-known valid number. */
  lemma KnownNumberIsAccepted()
    ensures ValidateCpf("52998224725")
  {
    var good := "52998224725";
    KnownNumberChecksums();
    OnlyDigitsOfDigits(good);
    assert good[1] != good[0];
    AcceptsDigitsMeaning(good);
  }

  lemma WrongLastDigitChecksums()
    ensures AllDigits("52998224726") && !ChecksumsHold("52998224726")
  {
    assert AllDigits("52998224726");
    assert WeightedSum("52998224726", 10, 11) == 347;
  }

  /** The same number with its last digit changed. */
  lemma WrongLastDigitIsRejected()
    ensures !ValidateCpf("52998224726")
  {
    var bad := "52998224726";
    WrongLastDigitChecksums();
    OnlyDigitsOfDigits(bad);
    AcceptsDigitsMeaning(bad);
  }
}
