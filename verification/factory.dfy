/** `parse_channels` of `matrix.factory.hpp`: recognises a channel string
    such as "8uc3" and yields the channel count and the bit depth. The
    regular expression `(\d+)([f|i|u])c(\d+)` is replaced by a hand-written
    recogniser that is proved to accept exactly the strings of that shape. */
module MatrixFactory {
  import opened Primitive
  import opened Outcome

  predicate IsDigit(c: char) {
    '0' <= c <= '9'
  }

  predicate AllDigits(s: string) {
    forall i :: 0 <= i < |s| ==> IsDigit(s[i])
  }

  /** The bracket `[f|i|u]` is a character class, so `|` is one of its
      members. */
  predicate IsClassChar(c: char) {
    c == 'f' || c == 'i' || c == 'u' || c == '|'
  }

  /** The value of a string of decimal digits (leading zeros allowed). */
  function DecimalValue(s: string): nat
    requires AllDigits(s)
  {
    if s == [] then 0
    else DecimalValue(s[..|s| - 1]) * 10 + (s[|s| - 1] as int - '0' as int)
  }

  /** The pieces of a matching channel string: the depth digits, the class
      character and the channel-count digits. */
  datatype Match = Match(depthDigits: string, kind: char, chansDigits: string)

  predicate WellFormed(m: Match) {
    && |m.depthDigits| > 0 && AllDigits(m.depthDigits)
    && IsClassChar(m.kind)
    && |m.chansDigits| > 0 && AllDigits(m.chansDigits)
  }

  /** The string a match was taken from. */
  function Spell(m: Match): string {
    m.depthDigits + [m.kind, 'c'] + m.chansDigits
  }

  /** The number of leading decimal digits of `s`. */
  function LeadingDigits(s: string): (n: nat)
    ensures n <= |s|
    ensures AllDigits(s[..n])
    ensures n < |s| ==> !IsDigit(s[n])
  {
    if s == [] || !IsDigit(s[0]) then 0
    else
      var n := 1 + LeadingDigits(s[1..]);
      assert s[..n] == [s[0]] + s[1..][..n - 1];
      n
  }

  /** `std::regex_match` of the whole string against `(\d+)([f|i|u])c(\d+)`.
      A match is only ever reported for a well-formed spelling of `s`. */
  function Recognize(s: string): (r: Option<Match>)
    ensures r.Some? ==> WellFormed(r.value) && Spell(r.value) == s
  {
    var k := LeadingDigits(s);
    if 1 <= k && k + 2 < |s| && IsClassChar(s[k]) && s[k + 1] == 'c' && AllDigits(s[k + 2..]) then
      var m := Match(s[..k], s[k], s[k + 2..]);
      assert Spell(m) == s;
      Some(m)
    else
      None
  }

  /** Conversely, every well-formed spelling is recognised, and split back
      into the same pieces. */
  lemma RecognizeComplete(m: Match)
    requires WellFormed(m)
    ensures Recognize(Spell(m)) == Some(m)
  {
    var s := Spell(m);
    var d := |m.depthDigits|;
    var k := LeadingDigits(s);
    assert s[d] == m.kind;
    assert s[..k] == m.depthDigits;
    assert s[k + 2..] == m.chansDigits;
  }

  /** 2 to the power `k`. */
  function Pow2(k: nat): nat {
    if k == 0 then 1 else 2 * Pow2(k - 1)
  }

  /** The integer base-2 logarithm, rounded down. */
  function Log2(d: nat): nat
    requires d >= 1
  {
    if d == 1 then 0 else 1 + Log2(d / 2)
  }

  /** `d` is 2^k for some k. */
  predicate IsPowerOfTwo(d: int) {
    d >= 1 && Pow2(Log2(d)) == d
  }

  /** The C++ operator `&` on non-negative integers, bit by bit. */
  function BitAnd(a: nat, b: nat): nat {
    if a == 0 || b == 0 then 0
    else 2 * BitAnd(a / 2, b / 2) + (if a % 2 == 1 && b % 2 == 1 then 1 else 0)
  }

  lemma {:induction false} BitAndSelf(a: nat)
    ensures BitAnd(a, a) == a
  {
    if a != 0 {
      BitAndSelf(a / 2);
    }
  }

  lemma {:induction false} Pow2Log2(k: nat)
    ensures Pow2(k) >= 1
    ensures Log2(Pow2(k)) == k
  {
    if k > 0 {
      Pow2Log2(k - 1);
      assert Pow2(k) / 2 == Pow2(k - 1);
    }
  }

  /** The bit trick `!(d & (d - 1))` that `parse_channels` asserts holds of a
      positive `d` exactly when `d` is a power of two. */
  lemma {:induction false} BitTrickIsPowerOfTwo(d: nat)
    requires d >= 1
    ensures BitAnd(d, d - 1) == 0 <==> IsPowerOfTwo(d)
  {
    if d == 1 {
    } else if d % 2 == 0 {
      assert (d - 1) / 2 == d / 2 - 1;
      assert BitAnd(d, d - 1) == 2 * BitAnd(d / 2, d / 2 - 1);
      BitTrickIsPowerOfTwo(d / 2);
      assert Log2(d) == 1 + Log2(d / 2);
    } else {
      assert (d - 1) / 2 == d / 2;
      BitAndSelf(d / 2);
      assert BitAnd(d, d - 1) == 2 * (d / 2);
      assert Pow2(Log2(d)) == 2 * Pow2(Log2(d / 2));
    }
  }

  /** Every power of two passes the assertion. */
  lemma PowersOfTwoPass(k: nat)
    ensures IsPowerOfTwo(Pow2(k))
    ensures BitAnd(Pow2(k), Pow2(k) - 1) == 0
  {
    Pow2Log2(k);
    BitTrickIsPowerOfTwo(Pow2(k));
  }

  /** The values of the two out-parameters after the call. */
  datatype Channels = Channels(nchans: int, depth: int)

  /** `parse_channels(channels, nchans, depth)`: `nchans` and `depth` are the
      values the out-parameters hold on entry. On a non-matching string they
      are returned untouched and no error is signalled. On a match both
      numbers are read with `std::stoi`, the depth first, which throws when a
      number does not fit an `int`; then the depth must be a positive power
      of two and the channel count positive. */
  function ParseChannels(channels: string, nchans: int, depth: int): (r: Result<Channels>)
    ensures Recognize(channels).None? ==> r == Ok(Channels(nchans, depth))
    ensures Recognize(channels).Some? ==>
      var m := Recognize(channels).value;
      var d := DecimalValue(m.depthDigits);
      var n := DecimalValue(m.chansDigits);
      if d > INT32_MAX || n > INT32_MAX then r == Fail(OutOfRange)
      else if IsPowerOfTwo(d) && n > 0 then r == Ok(Channels(n, d))
      else r == Fail(AssertionFailed)
  {
    match Recognize(channels)
    case None => Ok(Channels(nchans, depth))
    case Some(m) =>
      var d := DecimalValue(m.depthDigits);
      var n := DecimalValue(m.chansDigits);
      assert d > 0 ==> (BitAnd(d, d - 1) == 0 <==> IsPowerOfTwo(d)) by {
        if d > 0 { BitTrickIsPowerOfTwo(d); }
      }
      if d > INT32_MAX then
        Fail(OutOfRange)
      else if n > INT32_MAX then
        Fail(OutOfRange)
      else if !(d > 0 && BitAnd(d, d - 1) == 0) then
        Fail(AssertionFailed)
      else if !(n > 0) then
        Fail(AssertionFailed)
      else
        Ok(Channels(n, d))
    }

  /** The class letter is matched but discarded: any two class characters
      give the same outcome. */
  lemma ClassLetterIgnored(m: Match, c: char, nchans: int, depth: int)
    requires WellFormed(m) && IsClassChar(c)
    ensures ParseChannels(Spell(m), nchans, depth) == ParseChannels(Spell(m.(kind := c)), nchans, depth)
  {
    RecognizeComplete(m);
    RecognizeComplete(m.(kind := c));
  }

  /** "8uc3" is 3 channels of depth 8; "8|c1" is accepted too; "8uc0" fails
      the channel assertion; "8uc" is left alone. */
  lemma Examples(nchans: int, depth: int)
    ensures ParseChannels("8uc3", nchans, depth) == Ok(Channels(3, 8))
    ensures ParseChannels("8|c1", nchans, depth) == Ok(Channels(1, 8))
    ensures ParseChannels("8uc0", nchans, depth) == Fail(AssertionFailed)
    ensures ParseChannels("8uc", nchans, depth) == Ok(Channels(nchans, depth))
  {
    EightIsPowerOfTwo();
    ExampleRecognized(Match("8", 'u', "3"), "8uc3");
    ExampleRecognized(Match("8", '|', "1"), "8|c1");
    ExampleRecognized(Match("8", 'u', "0"), "8uc0");
    assert LeadingDigits("8uc") == 1;
  }

  /** A depth of 2^31 does not fit an `int`: `std::stoi` throws. */
  lemma ExampleOutOfRange(nchans: int, depth: int)
    ensures ParseChannels("2147483648uc1", nchans, depth) == Fail(OutOfRange)
  {
    ExampleRecognized(Match("2147483648", 'u', "1"), "2147483648uc1");
    TwoToThe31();
  }

  lemma TwoToThe31()
    ensures DecimalValue("2147483648") == 2147483648
  {
    assert DecimalValue("2") == 2;
    assert DecimalValue("21") == 21 by { assert "21" == "2" + ['1']; DecimalAppend("2", '1'); }
    assert DecimalValue("214") == 214 by { assert "214" == "21" + ['4']; DecimalAppend("21", '4'); }
    assert DecimalValue("2147") == 2147 by { assert "2147" == "214" + ['7']; DecimalAppend("214", '7'); }
    assert DecimalValue("21474") == 21474 by { assert "21474" == "2147" + ['4']; DecimalAppend("2147", '4'); }
    assert DecimalValue("214748") == 214748 by { assert "214748" == "21474" + ['8']; DecimalAppend("21474", '8'); }
    assert DecimalValue("2147483") == 2147483 by { assert "2147483" == "214748" + ['3']; DecimalAppend("214748", '3'); }
    assert DecimalValue("21474836") == 21474836 by { assert "21474836" == "2147483" + ['6']; DecimalAppend("2147483", '6'); }
    assert DecimalValue("214748364") == 214748364 by { assert "214748364" == "21474836" + ['4']; DecimalAppend("21474836", '4'); }
    assert DecimalValue("2147483648") == 2147483648 by { assert "2147483648" == "214748364" + ['8']; DecimalAppend("214748364", '8'); }
  }

  /** Appending a digit multiplies the value by ten and adds the digit. */
  lemma DecimalAppend(s: string, c: char)
    requires AllDigits(s) && IsDigit(c)
    ensures AllDigits(s + [c])
    ensures DecimalValue(s + [c]) == DecimalValue(s) * 10 + (c as int - '0' as int)
  {
    assert (s + [c])[..|s|] == s;
  }

  lemma EightIsPowerOfTwo()
    ensures DecimalValue("8") == 8 && IsPowerOfTwo(8)
    ensures DecimalValue("3") == 3 && DecimalValue("1") == 1 && DecimalValue("0") == 0
  {
    assert Pow2(3) == 8;
    Pow2Log2(3);
  }

  lemma ExampleRecognized(m: Match, s: string)
    requires WellFormed(m) && Spell(m) == s
    ensures Recognize(s) == Some(m)
  {
    RecognizeComplete(m);
  }
}
