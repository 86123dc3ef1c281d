/** Version labels "V1.0", "V2.0", ...: writing a number as a label and reading it back. */
module VersionLabels {
  import opened Wrappers

  function Digit(d: nat): char
    requires d < 10
  {
    ('0' as int + d) as char
  }

  function Decimal(n: nat): string {
    if n < 10 then [Digit(n)] else Decimal(n / 10) + [Digit(n % 10)]
  }

  function Label(n: nat): string {
    "V" + Decimal(n) + ".0"
  }

  /** Every capital V is removed, wherever it stands. */
  function WithoutV(s: string): string {
    if s == "" then "" else (if s[0] == 'V' then [] else [s[0]]) + WithoutV(s[1..])
  }

  function BeforeDot(s: string): string {
    if s == "" || s[0] == '.' then "" else [s[0]] + BeforeDot(s[1..])
  }

  predicate IsDigit(c: char) {
    '0' <= c <= '9'
  }

  function Number(s: string): Option<nat> {
    if s == "" then None
    else
      var c := s[|s| - 1];
      if !IsDigit(c) then None
      else if |s| == 1 then Some((c as int) - ('0' as int))
      else
        var high := Number(s[..|s| - 1]);
        if high.None? then None else Some(10 * high.value + ((c as int) - ('0' as int)))
  }

  /** The number of a label; a label that does not read as a number has none. */
  function NumberOf(tag: string): Option<nat> {
    Number(BeforeDot(WithoutV(tag)))
  }

  lemma {:induction false} DecimalReadsBack(n: nat)
    ensures Decimal(n) != "" && Number(Decimal(n)) == Some(n)
    ensures forall i :: 0 <= i < |Decimal(n)| ==> IsDigit(Decimal(n)[i])
  {
    if n >= 10 {
      DecimalReadsBack(n / 10);
      var high := Decimal(n / 10);
      assert Decimal(n)[..|high|] == high;
    }
  }

  lemma {:induction false} WithoutVOfPlain(s: string)
    requires forall i :: 0 <= i < |s| ==> s[i] != 'V'
    ensures WithoutV(s) == s
  {
    if s != "" {
      WithoutVOfPlain(s[1..]);
    }
  }

  lemma {:induction false} BeforeDotOfDigits(s: string, rest: string)
    requires forall i :: 0 <= i < |s| ==> s[i] != '.'
    requires rest != "" && rest[0] == '.'
    ensures BeforeDot(s + rest) == s
  {
    if s == "" {
      assert s + rest == rest;
    } else {
      BeforeDotOfDigits(s[1..], rest);
      assert (s + rest)[1..] == s[1..] + rest;
    }
  }

  /** Reading a label gives back the number it was written for; so different numbers have different labels. */
  lemma LabelReadsBack(n: nat)
    ensures NumberOf(Label(n)) == Some(n)
  {
    var d := Decimal(n);
    DecimalReadsBack(n);
    assert Label(n)[0] == 'V' && Label(n)[1..] == d + ".0";
    WithoutVOfPlain(d + ".0");
    assert WithoutV(Label(n)) == d + ".0";
    BeforeDotOfDigits(d, ".0");
  }

  // ---------- how any text is read ----------

  /** Removing the letter V works letter by letter. */
  lemma {:induction false} WithoutVMeans(s: string, t: string)
    ensures WithoutV(s + t) == WithoutV(s) + WithoutV(t)
  {
    if s == "" {
      assert s + t == t;
    } else {
      WithoutVMeans(s[1..], t);
      var head := if s[0] == 'V' then "" else [s[0]];
      assert (s + t)[0] == s[0] && (s + t)[1..] == s[1..] + t;
      Regroup(head, WithoutV(s[1..]), WithoutV(t));
    }
  }

  lemma Regroup(a: string, b: string, c: string)
    ensures a + (b + c) == (a + b) + c
  {
  }

  lemma WithoutVOfLetter(c: char)
    ensures WithoutV([c]) == if c == 'V' then "" else [c]
  {
    assert [c][1..] == "";
  }

  /** What counts is the text before the first dot. */
  lemma {:induction false} BeforeDotMeans(s: string)
    ensures '.' !in BeforeDot(s) && BeforeDot(s) <= s
    ensures '.' in s ==> |BeforeDot(s)| < |s| && s[|BeforeDot(s)|] == '.'
    ensures '.' !in s ==> BeforeDot(s) == s
  {
    if s != "" && s[0] != '.' {
      BeforeDotMeans(s[1..]);
      assert s == [s[0]] + s[1..];
    }
  }

  /** A text reads as a number exactly when it is not empty and all of it is digits. */
  lemma {:induction false} NumberMeans(s: string)
    ensures Number(s).Some? <==> s != "" && forall i :: 0 <= i < |s| ==> '0' <= s[i] <= '9'
  {
    if |s| > 1 {
      NumberMeans(s[..|s| - 1]);
    }
  }

  /** No number is written with a leading zero. */
  lemma {:induction false} DecimalPlain(n: nat)
    ensures n > 0 ==> Decimal(n)[0] != '0'
  {
    if n >= 10 {
      DecimalPlain(n / 10);
      DecimalReadsBack(n / 10);
    }
  }
}
