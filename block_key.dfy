/** Block keys of the form "type.index" and the two conversions the command
    line applies to them: taking the text before the first '.'
    (`key.split(".")[0]`) and reading it as a decimal integer (`int(...)`). */
module BlockKey {
  import opened Results

  predicate IsDigit(c: char) { '0' <= c <= '9' }

  /** A string of ASCII decimal digits, possibly empty. */
  predicate AllDigits(s: string)
  {
    s == [] || (AllDigits(s[..|s| - 1]) && IsDigit(s[|s| - 1]))
  }

  /** A non-empty string of ASCII decimal digits. */
  predicate IsDigits(s: string)
  {
    |s| > 0 && AllDigits(s)
  }

  lemma {:induction false} AllDigitsAt(s: string)
    requires AllDigits(s)
    ensures forall j :: 0 <= j < |s| ==> IsDigit(s[j])
  {
    if s != [] {
      AllDigitsAt(s[..|s| - 1]);
    }
  }

  function DigitValue(c: char): nat
    requires IsDigit(c)
  {
    c as int - '0' as int
  }

  function DigitChar(d: nat): char
    requires d < 10
  {
    ('0' as int + d) as char
  }

  /** The value of a digit string, most significant digit first. */
  function DigitsValue(s: string): nat
    requires AllDigits(s)
  {
    if s == [] then 0 else 10 * DigitsValue(s[..|s| - 1]) + DigitValue(s[|s| - 1])
  }

  /** `int(s)` on the strings this model admits: a non-empty run of ASCII
      digits is read as a decimal number, anything else raises. */
  function ParseNat(s: string): (r: Option<nat>)
    ensures r.Some? <==> IsDigits(s)
  {
    if IsDigits(s) then Some(DigitsValue(s)) else None
  }

  /** `str(n)` for a natural number: its decimal digits without leading zeros. */
  function RenderNat(n: nat): (s: string)
    ensures IsDigits(s)
    ensures s[0] == '0' <==> n == 0
  {
    if n < 10 then [DigitChar(n)] else RenderNat(n / 10) + [DigitChar(n % 10)]
  }

  /** A digit string exactly as `str` renders its value: no leading zeros. */
  predicate IsCanonical(s: string)
  {
    IsDigits(s) && RenderNat(DigitsValue(s)) == s
  }

  /** Reading back a rendered number gives the number. */
  lemma {:induction false} ParseRenderNat(n: nat)
    ensures ParseNat(RenderNat(n)) == Some(n)
    ensures IsCanonical(RenderNat(n))
  {
    var s := RenderNat(n);
    assert DigitValue(DigitChar(n % 10)) == n % 10;
    if n >= 10 {
      ParseRenderNat(n / 10);
      assert s[..|s| - 1] == RenderNat(n / 10);
    } else {
      assert s[..0] == [] && DigitsValue([]) == 0;
      assert DigitsValue(s) == DigitValue(DigitChar(n)) == n;
    }
  }

  /** `int` ignores leading zeros, so "06" and "6" denote the same type. */
  lemma {:induction false} LeadingZeroIgnored(s: string)
    requires IsDigits(s)
    ensures ParseNat("0" + s) == ParseNat(s)
  {
    if |s| > 1 {
      var init := s[..|s| - 1];
      LeadingZeroIgnored(init);
      assert ("0" + s)[..|s|] == "0" + init;
    } else {
      assert ("0" + s)[..1] == "0";
      assert "0"[..0] == [] && s[..0] == [] && DigitsValue([]) == 0;
      assert DigitsValue("0") == 0;
      assert DigitsValue(s) == DigitValue(s[0]);
      assert DigitsValue("0" + s) == 10 * DigitsValue("0") + DigitValue(s[0]);
    }
  }

  /** `key.split(".")[0]`: the text of `key` before its first '.', or all of
      `key` when it has no '.'. */
  function TypePrefix(key: string): (p: string)
    ensures p <= key
    ensures '.' !in p
    ensures |p| < |key| ==> key[|p|] == '.'
  {
    if key == [] || key[0] == '.' then [] else [key[0]] + TypePrefix(key[1..])
  }

  /** `int(key.split(".")[0])`: the block type a key names, if it names one. */
  function BlockType(key: string): (t: Option<nat>)
    ensures t.Some? <==> IsDigits(TypePrefix(key))
  {
    ParseNat(TypePrefix(key))
  }

  /** The key under which a block of type `t` that is the `i`-th of its
      type is stored. */
  function Render(t: nat, i: nat): string
  {
    RenderNat(t) + "." + RenderNat(i)
  }

  /** Decomposing a rendered key gives back its type, as canonical text. */
  lemma RenderedKeyType(t: nat, i: nat)
    ensures TypePrefix(Render(t, i)) == RenderNat(t)
    ensures BlockType(Render(t, i)) == Some(t)
    ensures IsCanonical(TypePrefix(Render(t, i)))
  {
    var key, n, p := Render(t, i), RenderNat(t), TypePrefix(Render(t, i));
    assert key[|n|] == '.';
    AllDigitsAt(n);
    assert forall j :: 0 <= j < |n| ==> key[j] == n[j] && key[j] != '.';
    assert |p| == |n|;
    ParseRenderNat(t);
  }
}
