/**
 * The short-code codec: base-62 positional notation over the symbols
 * 0-9, A-Z, a-z (digit value d is the d-th symbol), most significant
 * digit first, "0" for zero and no leading zero digit otherwise.
 *
 * `Encoding` and `Decoding` are the specifications; `Encode` and `Decode`
 * are the loops of the implementation, proved against them.
 */
module Base62 {
  import opened Wrappers

  const DigitSymbols: string := "0123456789"
  const UpperSymbols: string := "ABCDEFGHIJKLMNOPQRSTUVWXYZ"
  const LowerSymbols: string := "abcdefghijklmnopqrstuvwxyz"

  /** The 62 symbols in digit-value order. */
  const Alphabet: string := DigitSymbols + UpperSymbols + LowerSymbols
  const Base: nat := 62

  /** Why a string is not a short code: the first character outside the alphabet. */
  datatype DecodeError = InvalidCharacter(c: char)

  /** The code point of the symbol for digit value `d`. */
  function SymbolCode(d: nat): int
  {
    if d < 10 then '0' as int + d else if d < 36 then 'A' as int + d - 10 else 'a' as int + d - 36
  }

  /** The symbol for digit value `d`, character by character. */
  lemma SymbolAt(d: nat)
    requires d < Base
    ensures Alphabet[d] as int == SymbolCode(d)
  {}

  /** A character is a symbol when it is a decimal digit or an ASCII letter. */
  predicate IsSymbol(c: char)
  {
    '0' <= c <= '9' || 'A' <= c <= 'Z' || 'a' <= c <= 'z'
  }

  /** The position of `c` in the alphabet, or -1 when `c` is not a symbol. */
  function IndexOf(c: char): (r: int)
    ensures -1 <= r < Base
    ensures r == -1 <==> !IsSymbol(c)
    ensures r >= 0 ==> Alphabet[r] == c
  {
    if '0' <= c <= '9' then
      var d := c as int - '0' as int;
      SymbolAt(d);
      d
    else if 'A' <= c <= 'Z' then
      var d := c as int - 'A' as int + 10;
      SymbolAt(d);
      d
    else if 'a' <= c <= 'z' then
      var d := c as int - 'a' as int + 36;
      SymbolAt(d);
      d
    else
      -1
  }

  /** The symbols are exactly the characters of the alphabet. */
  lemma SymbolsAreAlphabet(c: char)
    ensures c in Alphabet <==> IsSymbol(c)
  {
    if c in Alphabet {
      var k :| 0 <= k < |Alphabet| && Alphabet[k] == c;
      SymbolAt(k);
    }
    if IsSymbol(c) {
      var d := IndexOf(c);
      assert Alphabet[d] == c;
    }
  }

  /** Each symbol stands for exactly one digit value: `indexOf(BASE62_CHARS.charAt(d)) == d`. */
  lemma ValueOfSymbol(d: nat)
    requires d < Base
    ensures IsSymbol(Alphabet[d]) && IndexOf(Alphabet[d]) == d
  {
    SymbolAt(d);
  }

  /** The value of a symbol. */
  function DigitValue(c: char): (d: nat)
    requires IsSymbol(c)
    ensures d < Base && Alphabet[d] == c
  {
    IndexOf(c)
  }

  predicate IsCode(s: string)
  {
    forall i :: 0 <= i < |s| ==> IsSymbol(s[i])
  }

  // ---------------------------------------------------------------- encode

  /** The digits of `n` most significant first, with none at all for 0. */
  function Digits(n: nat): string
    decreases n
  {
    if n == 0 then [] else Digits(n / Base) + [Alphabet[n % Base]]
  }

  /** What `encode` returns for identifier `n`. */
  function Encoding(n: nat): (code: string)
    ensures |code| > 0
  {
    if n == 0 then "0" else Digits(n)
  }

  /** The loop of `encode`: peel off the last digit and put its symbol in front. */
  method Encode(id: nat) returns (code: string)
    ensures code == Encoding(id)
  {
    if id == 0 {
      return "0";
    }
    code := "";
    var n: nat := id;
    while n > 0
      invariant Digits(n) + code == Digits(id)
      decreases n
    {
      var remainder := n % Base;
      assert Digits(n) + code == Digits(n / Base) + ([Alphabet[remainder]] + code);
      code := [Alphabet[remainder]] + code;
      n := n / Base;
    }
    assert Digits(n) == [];
  }

  // ---------------------------------------------------------------- decode

  /** The left-to-right fold `value * 62 + digit` over a short code. */
  function Value(s: string): (v: nat)
    requires IsCode(s)
    ensures v < Pow(|s|)
  {
    if s == [] then 0 else Value(s[..|s| - 1]) * Base + DigitValue(s[|s| - 1])
  }

  /** The index of the first character outside the alphabet, or |s| if there is none. */
  function FirstInvalid(s: string): (k: nat)
    ensures k <= |s|
    ensures forall i :: 0 <= i < k ==> IsSymbol(s[i])
    ensures k < |s| ==> !IsSymbol(s[k])
  {
    if s == [] then 0
    else if IndexOf(s[0]) == -1 then 0
    else 1 + FirstInvalid(s[1..])
  }

  /** What `decode` returns or throws for `s`. */
  function Decoding(s: string): (r: Result<nat, DecodeError>)
    ensures r.Failure? <==> !IsCode(s)
    ensures r.Failure? ==> !IsSymbol(r.error.c) && exists i :: 0 <= i < |s| && s[i] == r.error.c
  {
    var k := FirstInvalid(s);
    if k < |s| then Failure(InvalidCharacter(s[k])) else Success(Value(s))
  }

  /** The loop of `decode`: stop at the first character outside the alphabet. */
  method Decode(shortCode: string) returns (r: Result<nat, DecodeError>)
    ensures r == Decoding(shortCode)
  {
    var decoded: nat := 0;
    for i := 0 to |shortCode|
      invariant IsCode(shortCode[..i])
      invariant decoded == Value(shortCode[..i])
    {
      var c := shortCode[i];
      var value := IndexOf(c);
      if value == -1 {
        assert FirstInvalid(shortCode) == i;
        return Failure(InvalidCharacter(c));
      }
      assert shortCode[..i + 1][..i] == shortCode[..i];
      decoded := decoded * Base + value;
    }
    assert shortCode[..|shortCode|] == shortCode;
    assert FirstInvalid(shortCode) == |shortCode|;
    r := Success(decoded);
  }

  // ---------------------------------------------------------------- properties

  lemma {:induction false} DigitsAreSymbols(n: nat)
    ensures IsCode(Digits(n))
    decreases n
  {
    if n > 0 {
      DigitsAreSymbols(n / Base);
      ValueOfSymbol(n % Base);
    }
  }

  /** Every character of `encode(n)` is one of the 62 symbols. */
  lemma EncodingInAlphabet(n: nat)
    ensures forall i :: 0 <= i < |Encoding(n)| ==> Encoding(n)[i] in Alphabet
  {
    DigitsAreSymbols(n);
    forall i | 0 <= i < |Encoding(n)|
      ensures Encoding(n)[i] in Alphabet
    {
      SymbolsAreAlphabet(Encoding(n)[i]);
    }
  }

  lemma {:induction false} DigitsStart(n: nat)
    requires n > 0
    ensures |Digits(n)| > 0 && Digits(n)[0] != '0'
    decreases n
  {
    if n < Base {
      assert Digits(n) == [Alphabet[n]];
      ValueOfSymbol(n);
    } else {
      DigitsStart(n / Base);
    }
  }

  /** `encode(n)` is never empty and starts with '0' only for n == 0, where it is "0". */
  lemma NoLeadingZero(n: nat)
    ensures |Encoding(n)| > 0
    ensures Encoding(n)[0] == '0' <==> n == 0
    ensures n == 0 ==> Encoding(n) == "0"
  {
    if n > 0 {
      DigitsStart(n);
    }
  }

  /** One more character extends the fold by one step. */
  lemma ValueAppend(s: string, c: char)
    requires IsCode(s) && IsSymbol(c)
    ensures IsCode(s + [c]) && Value(s + [c]) == Value(s) * Base + DigitValue(c)
  {
    assert (s + [c])[..|s|] == s;
  }

  lemma {:induction false} ValueOfDigits(n: nat)
    ensures IsCode(Digits(n)) && Value(Digits(n)) == n
    decreases n
  {
    DigitsAreSymbols(n);
    if n > 0 {
      ValueOfDigits(n / Base);
      ValueOfSymbol(n % Base);
      ValueAppend(Digits(n / Base), Alphabet[n % Base]);
    }
  }

  /** `decode(encode(n)) == n` for every identifier. */
  lemma RoundTrip(n: nat)
    ensures Decoding(Encoding(n)) == Success(n)
  {
    if n == 0 {
      SymbolAt(0);
      assert Encoding(0)[..0] == [];
    } else {
      ValueOfDigits(n);
    }
  }

  /** Distinct identifiers get distinct codes. */
  lemma EncodingInjective(a: nat, b: nat)
    ensures Encoding(a) == Encoding(b) ==> a == b
  {
    RoundTrip(a);
    RoundTrip(b);
  }

  /** The strings `encode` can produce: symbols only, non-empty, no leading zero unless "0". */
  predicate IsCanonical(s: string)
  {
    IsCode(s) && |s| > 0 && (s[0] == '0' ==> s == "0")
  }

  lemma EncodingIsCanonical(n: nat)
    ensures IsCanonical(Encoding(n))
  {
    NoLeadingZero(n);
    DigitsAreSymbols(n);
    SymbolAt(0);
  }

  lemma {:induction false} ValuePositive(s: string)
    requires IsCode(s) && |s| > 0 && s[0] != '0'
    ensures Value(s) > 0
    decreases |s|
  {
    var t := s[..|s| - 1];
    SymbolAt(0);
    if |s| > 1 {
      ValuePositive(t);
    }
  }

  lemma {:induction false} DigitsOfValue(s: string)
    requires IsCode(s) && (|s| > 0 ==> s[0] != '0')
    ensures Digits(Value(s)) == s
    decreases |s|
  {
    if s != [] {
      var t, c := s[..|s| - 1], s[|s| - 1];
      assert s == t + [c];
      DigitsOfValue(t);
      ValuePositive(s);
      var d := DigitValue(c);
      assert Value(s) == Value(t) * Base + d;
      assert Value(s) / Base == Value(t) && Value(s) % Base == d;
    }
  }

  /** `encode(decode(s)) == s` for every string `encode` can produce: the codec is a bijection. */
  lemma EncodingOfCanonical(s: string)
    requires IsCanonical(s)
    ensures Encoding(Value(s)) == s
  {
    if s[0] == '0' {
      SymbolAt(0);
      assert s[..0] == [];
    } else {
      ValuePositive(s);
      DigitsOfValue(s);
    }
  }

  /** Decoding reads left to right: `decode("") == 0` and each symbol is one step `value * 62 + digit`. */
  lemma DecodeFold(s: string, c: char)
    ensures Decoding([]) == Success(0)
    ensures Decoding(s + [c]) ==
      match Decoding(s)
      case Failure(e) => Failure(e)
      case Success(v) => if IsSymbol(c) then Success(v * Base + DigitValue(c)) else Failure(InvalidCharacter(c))
  {
    var k, sc := FirstInvalid(s), s + [c];
    assert forall i :: 0 <= i < |s| ==> sc[i] == s[i];
    if k < |s| {
      assert FirstInvalid(sc) == k;
    } else if IsSymbol(c) {
      assert FirstInvalid(sc) == |sc|;
      ValueAppend(s, c);
    } else {
      assert sc[|s|] == c;
      assert FirstInvalid(sc) == |s|;
    }
  }

  /** `decode` fails exactly when some character, anywhere, is outside the alphabet, and names the first one. */
  lemma DecodingRejects(s: string)
    ensures Decoding(s).Failure? <==> exists i :: 0 <= i < |s| && s[i] !in Alphabet
    ensures forall k :: 0 <= k < |s| && s[k] !in Alphabet && (forall j :: 0 <= j < k ==> s[j] in Alphabet) ==>
      Decoding(s) == Failure(InvalidCharacter(s[k]))
    ensures IsCode(s) ==> Decoding(s) == Success(Value(s))
  {
    forall i | 0 <= i < |s|
      ensures s[i] in Alphabet <==> IsSymbol(s[i])
    {
      SymbolsAreAlphabet(s[i]);
    }
  }

  // ---------------------------------------------------------------- length

  /** 62^k. */
  function Pow(k: nat): (p: nat)
    ensures p >= 1
  {
    if k == 0 then 1 else Base * Pow(k - 1)
  }

  lemma {:induction false} PowMonotone(i: nat, j: nat)
    requires i <= j
    ensures Pow(i) <= Pow(j)
    decreases j
  {
    if i < j {
      PowMonotone(i, j - 1);
    }
  }

  lemma {:induction false} DigitsLength(n: nat)
    requires n > 0
    ensures |Digits(n)| > 0 && Pow(|Digits(n)| - 1) <= n < Pow(|Digits(n)|)
    decreases n
  {
    if n < Base {
      assert Digits(n) == [Alphabet[n]];
      assert Pow(1) == Base;
    } else {
      var m := n / Base;
      DigitsLength(m);
      var k := |Digits(m)|;
      assert |Digits(n)| == k + 1;
      assert Pow(k) == Base * Pow(k - 1);
      assert Pow(k + 1) == Base * Pow(k);
      assert n == Base * m + n % Base;
    }
  }

  /** For n > 0, `encode(n)` has exactly k characters when 62^(k-1) <= n < 62^k. */
  lemma EncodingLength(n: nat, k: nat)
    requires n > 0
    ensures |Encoding(n)| == k <==> 0 < k && Pow(k - 1) <= n < Pow(k)
  {
    DigitsLength(n);
    var len := |Digits(n)|;
    if 0 < k && Pow(k - 1) <= n < Pow(k) {
      if k < len {
        PowMonotone(k, len - 1);
      } else if k > len {
        PowMonotone(len, k - 1);
      }
    }
  }

  /** A code fits a column of `width` characters exactly when the identifier is below 62^width. */
  lemma FitsWidth(n: nat, width: nat)
    requires width > 0
    ensures |Encoding(n)| <= width <==> n < Pow(width)
  {
    if n > 0 {
      DigitsLength(n);
      var len := |Digits(n)|;
      if len <= width {
        PowMonotone(len, width);
      } else {
        PowMonotone(width, len - 1);
      }
    }
  }

  /** The encodings the codec's tests pin down. */
  lemma EncodeExamples()
    ensures Encoding(0) == "0" && Encoding(1) == "1" && Encoding(9) == "9"
    ensures Encoding(10) == "A" && Encoding(35) == "Z" && Encoding(36) == "a" && Encoding(61) == "z"
    ensures Encoding(62) == "10" && Encoding(97) == "1Z"
  {
    SymbolAt(0); SymbolAt(1); SymbolAt(9); SymbolAt(10);
    SymbolAt(35); SymbolAt(36); SymbolAt(61);
    assert Digits(62) == Digits(1) + [Alphabet[0]];
    assert Digits(97) == Digits(1) + [Alphabet[35]];
  }

  /** The decodings the codec's tests pin down. */
  lemma DecodeExamples()
    ensures Decoding("0") == Success(0) && Decoding("1") == Success(1)
    ensures Decoding("A") == Success(10) && Decoding("a") == Success(36)
    ensures Decoding("10") == Success(62) && Decoding("1Z") == Success(97)
  {
    EncodeExamples();
    RoundTrip(0); RoundTrip(1); RoundTrip(10); RoundTrip(36); RoundTrip(62); RoundTrip(97);
  }

  /** The rejections the codec's tests pin down, including a bad character in the middle. */
  lemma RejectExamples()
    ensures Decoding("!@#") == Failure(InvalidCharacter('!'))
    ensures Decoding("A$B") == Failure(InvalidCharacter('$'))
  {
    assert FirstInvalid("!@#") == 0;
    assert "A$B"[1..] == "$B";
    assert FirstInvalid("A$B") == 1;
  }

  /** The largest Java `long`, 2^63 - 1. */
  const LongMax: nat := 0x7FFF_FFFF_FFFF_FFFF

  /**
   * The largest `long` id has an 11-character code, yet 11 characters reach
   * past it: 11 * 62^10 also has an 11-character code and exceeds 2^63 - 1.
   */
  lemma LongRange()
    ensures |Encoding(LongMax)| == 11
    ensures LongMax < 11 * Pow(10)
    ensures |Encoding(11 * Pow(10))| == 11 && Decoding(Encoding(11 * Pow(10))) == Success(11 * Pow(10))
  {
    assert Pow(10) == 839299365868340224;
    assert Pow(11) == 52036560683837093888;
    EncodingLength(LongMax, 11);
    EncodingLength(11 * Pow(10), 11);
    RoundTrip(11 * Pow(10));
  }
}
