/** The encoder (m2a.cpp), reduced to its own logic: the validators of its
    arguments, the frame rate it derives from a probed `num/den`, and the
    layout of the file it writes. Running ffprobe, ffmpeg and jp2a is left to
    the caller: their results come in as parameters. */
module Encoder {
  import opened Text

  /** `isspace` in the "C" locale: the characters the regex class `\s`
      stands for on a `std::string`. */
  predicate IsSpace(c: char) {
    c == ' ' || c == '\t' || c == '\n' || c == '\U{0B}' || c == '\U{0C}' || c == '\r'
  }

  /** `s` is `scheme` followed by a non-empty run of non-space characters. */
  predicate HasScheme(s: string, scheme: string) {
    && |s| > |scheme|
    && s[..|scheme|] == scheme
    && forall i :: |scheme| <= i < |s| ==> !IsSpace(s[i])
  }

  /** `is_url`: the regex `(http|https)://([^\s]+)` matched against the whole
      string, spelled out as character tests. */
  predicate IsUrl(s: string) {
    HasScheme(s, "http://") || HasScheme(s, "https://")
  }

  /** Under either scheme, a string is a URL exactly when what follows the
      scheme is non-empty and holds no white space. */
  lemma UrlIff(scheme: string, rest: string)
    requires scheme == "http://" || scheme == "https://"
    ensures IsUrl(scheme + rest) <==> |rest| > 0 && forall i :: 0 <= i < |rest| ==> !IsSpace(rest[i])
  {
    var s := scheme + rest;
    assert s[..|scheme|] == scheme;
    assert forall i :: 0 <= i < |rest| ==> s[|scheme| + i] == rest[i];
    if scheme == "http://" {
      assert |s| > 4 ==> s[4] == ':';
      assert !HasScheme(s, "https://");
    } else {
      assert |s| > 4 ==> s[4] == 's';
      assert !HasScheme(s, "http://");
    }
  }

  /** What the `-f` option leads to: the argument kept as the rate, or exit
      status 1. */
  datatype FpsArg = Accepted(fps: string) | Rejected(code: int)

  /** The `-f` option is kept only when `is_numeric` holds of it; otherwise the
      encoder stops with status 1. */
  function CheckFpsFlag(arg: string): (r: FpsArg)
    ensures r.Accepted? <==> |arg| > 0 && forall i :: 0 <= i < |arg| ==> '0' <= arg[i] <= '9'
    ensures r.Accepted? ==> r.fps == arg
    ensures r.Rejected? ==> r.code == 1
  {
    if IsNumeric(arg) then Accepted(arg) else Rejected(1)
  }

  /** The `-f` check with zero rejected as well: only a numeral denoting a
      rate of at least one frame per second is kept. */
  function CheckFpsFlagPositive(arg: string): (r: FpsArg)
    ensures r.Accepted? <==> IsNumeric(arg) && DigitsValue(arg) >= 1
    ensures r.Accepted? ==> r.fps == arg
    ensures r.Rejected? ==> r.code == 1
    ensures r.Accepted? ==> CheckFpsFlag(arg) == r
  {
    if IsNumeric(arg) && DigitsValue(arg) > 0 then Accepted(arg) else Rejected(1)
  }

  /** The values `std::stoi` can return. */
  newtype int32 = x: int | -0x8000_0000 <= x < 0x8000_0000

  function Abs(x: int): nat {
    if x < 0 then -x else x
  }

  /** C++ integer division, which truncates toward zero: the remainder is
      smaller than the divisor in magnitude and has the sign of the dividend. */
  function TruncDiv(a: int, b: int): (q: int)
    requires b != 0
    ensures Abs(a - q * b) < Abs(b)
    ensures a - q * b == 0 || (a - q * b < 0 <==> a < 0)
  {
    var m := Abs(a) / Abs(b);
    TruncDivRemainder(a, b, m);
    if (a < 0) == (b < 0) then m else -m
  }

  /** The remainder left by the quotient of magnitudes, with the sign the
      dividend gives it. */
  lemma TruncDivRemainder(a: int, b: int, m: int)
    requires b != 0 && m == Abs(a) / Abs(b)
    ensures var q := if (a < 0) == (b < 0) then m else -m;
            a - q * b == if a < 0 then -(Abs(a) % Abs(b)) else Abs(a) % Abs(b)
  {
    var q := if (a < 0) == (b < 0) then m else -m;
    var p := m * Abs(b);
    var r := Abs(a) % Abs(b);
    assert Abs(a) == p + r by {
      DivMod(Abs(a), Abs(b));
    }
    assert q * b == if a < 0 then -p else p by {
      SignedProduct(q, b, m, Abs(b));
    }
  }

  lemma DivMod(x: nat, y: nat)
    requires y > 0
    ensures x == (x / y) * y + x % y
  {
  }

  /** Multiplying numbers of given magnitudes: the sign is the product of the
      signs. */
  lemma SignedProduct(x: int, y: int, m: int, n: int)
    requires x == m || x == -m
    requires y == n || y == -n
    ensures x * y == if (x == m) == (y == n) then m * n else -(m * n)
  {
  }

  /** A quotient of magnitude below one truncates to zero: a stream slower
      than one frame per second has a whole-number rate of 0. */
  lemma SlowQuotient(a: int, b: int)
    requires 0 <= a < b
    ensures TruncDiv(a, b) == 0
  {
    var q := TruncDiv(a, b);
    assert 0 <= a - q * b < b;
    ScaledDivisor(q, b);
  }

  /** A non-zero multiple of a positive divisor is at least the divisor in
      magnitude. */
  lemma ScaledDivisor(q: int, b: int)
    requires b > 0
    ensures q >= 1 ==> q * b >= b
    ensures q <= -1 ==> q * b <= -b
  {
    assert q * b == b + (q - 1) * b;
    assert q * b == -b + (q + 1) * b;
  }

  function DigitChar(k: nat): (c: char)
    requires k < 10
    ensures IsDigit(c) && DigitValue(c) == k
  {
    ('0' as int + k) as char
  }

  /** The decimal digits of `n`, without leading zeros. */
  function Digits(n: nat): (s: string)
    ensures Canonical(s)
    ensures DigitsValue(s) == n
    ensures s[0] == '0' <==> n == 0
    decreases n
  {
    if n < 10 then [DigitChar(n)]
    else
      var s := Digits(n / 10) + [DigitChar(n % 10)];
      assert s[..|s| - 1] == Digits(n / 10);
      s
  }

  /** The canonical numeral of a number is unique: any numeral without a
      leading zero is the one `Digits` writes for the number it denotes. */
  lemma {:induction false} DigitsUnique(t: string)
    requires Canonical(t)
    ensures Digits(DigitsValue(t)) == t
    decreases |t|
  {
    var n := DigitsValue(t);
    var last := t[|t| - 1];
    if |t| == 1 {
      assert t[..0] == [];
      assert n == 10 * DigitsValue(t[..0]) + DigitValue(last);
      assert n == DigitValue(last) < 10;
      assert DigitChar(n) == last;
      assert t == [last];
    } else {
      var p := t[..|t| - 1];
      var d := DigitValue(last);
      assert p[0] == t[0];
      assert Canonical(p);
      LeadingDigitPositive(p);
      assert n == 10 * DigitsValue(p) + d;
      assert n / 10 == DigitsValue(p) && n % 10 == d;
      DigitsUnique(p);
      assert DigitChar(d) == last;
      assert t == p + [last];
    }
  }

  /** `std::to_string` of an integer: a minus sign for negatives, then the
      digits. It passes `is_numeric` exactly when the number is not negative,
      and then denotes the number. */
  function Decimal(n: int): (s: string)
    ensures IsNumeric(s) <==> n >= 0
    ensures n >= 0 ==> Canonical(s) && DigitsValue(s) == n
    ensures n < 0 ==> |s| > 1 && s[0] == '-' && Canonical(s[1..]) && DigitsValue(s[1..]) == -n
  {
    if n < 0 then
      var s := "-" + Digits(-n);
      assert !IsDigit(s[0]);
      assert s[1..] == Digits(-n);
      s
    else Digits(n)
  }

  /** The frame rate derived from the probed average rate `num/den`: the
      truncated quotient in decimal, or "60" when that text is not numeric,
      which happens exactly when the quotient is negative. The division is
      undefined in C++ for a zero divisor and for `INT_MIN / -1`. */
  function ProbeFps(num: int32, den: int32): (fps: string)
    requires den != 0 && !(num == -0x8000_0000 && den == -1)
    ensures Canonical(fps)
    ensures TruncDiv(num as int, den as int) >= 0 ==> DigitsValue(fps) == TruncDiv(num as int, den as int)
    ensures TruncDiv(num as int, den as int) < 0 ==> fps == "60"
  {
    var s := Decimal(TruncDiv(num as int, den as int));
    if IsNumeric(s) then s else "60"
  }

  /** The derivation with the fallback also taken for a zero quotient, so the
      rate written is always at least 1. */
  function ProbeFpsPositive(num: int32, den: int32): (fps: string)
    requires den != 0 && !(num == -0x8000_0000 && den == -1)
    ensures Canonical(fps)
    ensures DigitsValue(fps) == if TruncDiv(num as int, den as int) >= 1 then TruncDiv(num as int, den as int) else 60
    ensures TruncDiv(num as int, den as int) >= 1 ==> fps == ProbeFps(num, den)
  {
    var q := TruncDiv(num as int, den as int);
    if q >= 1 then Decimal(q)
    else
      assert DigitsValue("60") == 60 by {
        assert "60"[..1] == "6";
        assert "6"[..0] == "";
      }
      "60"
  }

  /** The header: the rate line, then a blank line. */
  function Header(fps: string): string {
    FpsPrefix + fps + "\n\n"
  }

  /** The file the encoder writes for renderer outputs `blocks`, taken in the
      order the frame directory is listed: the header, then each block
      followed by one newline. Appending `b + "\n"` per block is `JoinLines`. */
  function Serialize(fps: string, blocks: seq<string>): (file: string)
    ensures |file| >= |Header(fps)| && file[..|Header(fps)|] == Header(fps)
  {
    Header(fps) + JoinLines(blocks)
  }

  /** One more block adds that block and a single newline at the end of the
      file, and nothing else. */
  lemma SerializeAppend(fps: string, blocks: seq<string>, b: string)
    ensures Serialize(fps, blocks + [b]) == Serialize(fps, blocks) + b + "\n"
  {
    JoinLinesAppend(blocks, [b]);
    assert JoinLines([b]) == b + "\n" + JoinLines([]);
  }

  /** The file is as long as the header plus every block and one newline per
      block. */
  lemma {:induction false} SerializeLength(fps: string, blocks: seq<string>)
    ensures |Serialize(fps, blocks)| == |Header(fps)| + TotalLength(blocks) + |blocks|
    decreases |blocks|
  {
    if |blocks| > 0 {
      var init := blocks[..|blocks| - 1];
      var b := blocks[|blocks| - 1];
      assert blocks == init + [b];
      SerializeAppend(fps, init, b);
      SerializeLength(fps, init);
      TotalLengthSnoc(init, b);
    }
  }

  function TotalLength(blocks: seq<string>): nat
    decreases |blocks|
  {
    if |blocks| == 0 then 0 else |blocks[0]| + TotalLength(blocks[1..])
  }

  lemma {:induction false} TotalLengthSnoc(blocks: seq<string>, b: string)
    ensures TotalLength(blocks + [b]) == TotalLength(blocks) + |b|
    decreases |blocks|
  {
    if |blocks| > 0 {
      assert (blocks + [b])[1..] == blocks[1..] + [b];
      TotalLengthSnoc(blocks[1..], b);
    } else {
      assert (blocks + [b])[1..] == [];
    }
  }
}
