/** The textual V-memory address (`V94`, `VW31`, `VD3`, `V2.4`) and its
    parser: the regular-expression classifier `parseTypeByVmAddr` and the
    field extraction of `NewVmAddrFromString`. */
module Address {
  import opened Wrappers
  import opened Strconv
  import opened DataTypes

  /** `vmAddr`: a data type, a byte offset in DB 1 and a bit number. The bit
      number is stored for every type; only `Bit` addresses use it. A value
      is built directly with the constructor, as `NewVmAddr` does. */
  datatype VmAddr = VmAddr(dataType: DataType, byte: u32, bit: u8)

  /** `VmAddrValue`: one entry of a batched write. */
  datatype VmAddrValue = VmAddrValue(addr: VmAddr, value: u32)

  // The four patterns of `parseTypeByVmAddr`. Go's `MatchString` is not
  // anchored: a pattern matches when it matches some substring.

  /** `V[0-9]{1,4}\.[0-7]` matches at `i` with `k` digits before the dot. */
  predicate BitMatchAt(s: string, i: nat, k: nat) {
    1 <= k <= 4 && i + k + 3 <= |s| &&
    s[i] == 'V' && AllDigits(s[i + 1..i + 1 + k]) &&
    s[i + 1 + k] == '.' && '0' <= s[i + 2 + k] <= '7'
  }

  predicate MatchesBit(s: string) {
    exists i, k | 0 <= i < |s| && 1 <= k <= 4 :: BitMatchAt(s, i, k)
  }

  /** `V[0-9]+` matches at `i` (one digit suffices for a match). */
  predicate ByteMatchAt(s: string, i: nat) {
    i + 2 <= |s| && s[i] == 'V' && IsDigit(s[i + 1])
  }

  predicate MatchesByte(s: string) {
    exists i | 0 <= i < |s| :: ByteMatchAt(s, i)
  }

  /** `V<letter>[0-9]+` matches at `i`; `letter` is `W` or `D`. */
  predicate LetterMatchAt(s: string, i: nat, letter: char) {
    i + 3 <= |s| && s[i] == 'V' && s[i + 1] == letter && IsDigit(s[i + 2])
  }

  predicate MatchesWord(s: string) {
    exists i | 0 <= i < |s| :: LetterMatchAt(s, i, 'W')
  }

  predicate MatchesDWord(s: string) {
    exists i | 0 <= i < |s| :: LetterMatchAt(s, i, 'D')
  }

  /** `parseTypeByVmAddr`: the first pattern that matches, tried in the
      order Bit, Byte, Word, DWord. */
  function ParseType(s: string): (r: Result<DataType>)
    ensures r.Ok? ==> r.value in {Bit, Byte, Word, DWord}
    ensures r.Err? ==> r.error == UnknownAddressFormat
  {
    if MatchesBit(s) then Ok(Bit)
    else if MatchesByte(s) then Ok(Byte)
    else if MatchesWord(s) then Ok(Word)
    else if MatchesDWord(s) then Ok(DWord)
    else Err(UnknownAddressFormat)
  }

  /** Every string the Bit pattern accepts is also accepted by the Byte
      pattern, so the order of the cases decides the type. */
  lemma BitMatchImpliesByteMatch(s: string)
    requires MatchesBit(s)
    ensures MatchesByte(s)
  {
    var i, k :| 0 <= i < |s| && 1 <= k <= 4 && BitMatchAt(s, i, k);
    assert s[i + 1..i + 1 + k][0] == s[i + 1];
    assert ByteMatchAt(s, i);
  }

  /** Index of the first `c` in `s`, or `|s|` when there is none. */
  function IndexOf(s: string, c: char): (r: nat)
    ensures r <= |s|
    ensures r < |s| ==> s[r] == c
    ensures forall j | 0 <= j < r :: s[j] != c
  {
    if s == [] then 0
    else if s[0] == c then 0
    else 1 + IndexOf(s[1..], c)
  }

  /** Index of the first ASCII digit in `s`, or `|s|` when there is none. */
  function IndexOfDigit(s: string): (r: nat)
    ensures r <= |s|
    ensures r < |s| ==> IsDigit(s[r])
    ensures forall j | 0 <= j < r :: !IsDigit(s[j])
  {
    if s == [] then 0
    else if IsDigit(s[0]) then 0
    else 1 + IndexOfDigit(s[1..])
  }

  /** `strings.Split(s, ".")[0]`: the text before the first dot. */
  function FirstField(s: string): string {
    s[..IndexOf(s, '.')]
  }

  /** `strings.Split(s, ".")[1]` when the split has a second part: the text
      between the first dot and the next dot or the end. */
  function SecondField(s: string): Option<string> {
    var d := IndexOf(s, '.');
    if d == |s| then None
    else
      var rest := s[d + 1..];
      Some(rest[..IndexOf(rest, '.')])
  }

  /** The bit number: `uint8(Atoi(second field))`, or 0 without a dot. */
  function BitNumber(s: string): Result<u8> {
    match SecondField(s)
    case None => Ok(0)
    case Some(field) =>
      match Atoi(field)
      case None => Err(NotDigits(field))
      case Some(n) => Ok(n % 0x100)
  }

  /** The byte offset: `uint32(Atoi(...))` of the first field from its
      first digit to its end, or 0 when the first field has no digit. */
  function ByteOffset(s: string): Result<u32> {
    var head := FirstField(s);
    var i := IndexOfDigit(head);
    if i == |head| then Ok(0)
    else
      match Atoi(head[i..])
      case None => Err(NotDigits(head[i..]))
      case Some(n) => Ok(n % 0x1_0000_0000)
  }

  /** Each pattern needs a `V`, and the Bit pattern a dot, the Word and
      DWord patterns their letter. */
  lemma PatternLetters(s: string)
    ensures MatchesBit(s) ==> 'V' in s && '.' in s
    ensures MatchesByte(s) ==> 'V' in s
    ensures MatchesWord(s) ==> 'V' in s && 'W' in s
    ensures MatchesDWord(s) ==> 'V' in s && 'D' in s
  {
    if MatchesBit(s) {
      var i, k :| 0 <= i < |s| && 1 <= k <= 4 && BitMatchAt(s, i, k);
      assert s[i] == 'V' && s[i + 1 + k] == '.';
    }
    if MatchesWord(s) {
      var i :| 0 <= i < |s| && LetterMatchAt(s, i, 'W');
      assert s[i] == 'V' && s[i + 1] == 'W';
    }
    if MatchesDWord(s) {
      var i :| 0 <= i < |s| && LetterMatchAt(s, i, 'D');
      assert s[i] == 'V' && s[i + 1] == 'D';
    }
  }

  /** The first field is the dot-free prefix that ends at the first dot or
      at the end; the second field, present exactly when there is a dot,
      is the dot-free text that follows that dot up to the next dot or the
      end. */
  lemma FieldsSpec(s: string)
    ensures var f := FirstField(s);
      && |f| <= |s| && f == s[..|f|] && '.' !in f
      && (|f| == |s| || s[|f|] == '.')
    ensures SecondField(s).None? <==> '.' !in s
    ensures SecondField(s).Some? ==>
      var f, g := FirstField(s), SecondField(s).value;
      var n := |f| + 1 + |g|;
      && n <= |s| && s[..n] == f + "." + g
      && '.' !in g && (n == |s| || s[n] == '.')
  {
    var d := IndexOf(s, '.');
    var f := FirstField(s);
    assert '.' !in f by {
      forall j | 0 <= j < |f| ensures f[j] != '.' {
        assert f[j] == s[j];
      }
    }
    if d < |s| {
      var rest := s[d + 1..];
      var e := IndexOf(rest, '.');
      var g := rest[..e];
      assert '.' !in g by {
        forall j | 0 <= j < |g| ensures g[j] != '.' {
          assert g[j] == rest[j];
        }
      }
      assert s[..d + 1 + e] == f + "." + g;
      if d + 1 + e < |s| {
        assert s[d + 1 + e] == rest[e];
      }
    }
  }

  /** Without a dot the bit number is 0; it fails exactly when there is a
      second field that `Atoi` rejects, and the error names that field. */
  lemma BitNumberSpec(s: string)
    ensures '.' !in s ==> BitNumber(s) == Ok(0)
    ensures BitNumber(s).Err? <==> SecondField(s).Some? && Atoi(SecondField(s).value).None?
    ensures BitNumber(s).Err? ==> BitNumber(s).error == NotDigits(SecondField(s).value)
  {
    FieldsSpec(s);
  }

  /** A first field without a digit gives offset 0; a failure names the
      tail of the first field that starts at its first digit. */
  lemma ByteOffsetSpec(s: string)
    ensures (forall c | c in FirstField(s) :: !IsDigit(c)) ==> ByteOffset(s) == Ok(0)
    ensures var r, f := ByteOffset(s), FirstField(s);
      r.Err? ==> IndexOfDigit(f) < |f| && r.error == NotDigits(f[IndexOfDigit(f)..])
  {
    var f := FirstField(s);
    var i := IndexOfDigit(f);
    if i < |f| {
      assert f[i] in f;
    }
  }

  /** What `NewVmAddrFromString` computes: the type first, then the bit
      number, then the byte offset, each failure returned as it occurs. */
  function ParseAddr(s: string): (r: Result<VmAddr>)
    ensures r.Ok? ==> r.value.dataType in {Bit, Byte, Word, DWord}
  {
    var t :- ParseType(s);
    var bit :- BitNumber(s);
    var byteAddr :- ByteOffset(s);
    Ok(VmAddr(t, byteAddr, bit))
  }

  /** `NewVmAddrFromString`: classify, split at the dots, convert the second
      field, then scan the first field for its first digit. */
  method NewVmAddrFromString(s: string) returns (r: Result<VmAddr>)
    ensures r == ParseAddr(s)
  {
    var addrType := ParseType(s);
    if addrType.Err? {
      return Err(addrType.error);
    }
    var d := IndexOf(s, '.');
    var head := s[..d];
    assert head == FirstField(s);
    var bitAddr: u8 := 0;
    if d < |s| {
      var field := SecondField(s).value;
      var bitAddrInt := Atoi(field);
      if bitAddrInt.None? {
        return Err(NotDigits(field));
      }
      bitAddr := bitAddrInt.value % 0x100;
    }
    assert BitNumber(s) == Ok(bitAddr);
    var byteAddr: u32 := 0;
    var i := 0;
    while i < |head|
      invariant 0 <= i <= |head|
      invariant forall j | 0 <= j < i :: !IsDigit(head[j])
      invariant byteAddr == 0
    {
      if IsDigit(head[i]) {
        FirstDigitAt(head, i);
        var tempByteAddr := Atoi(head[i..]);
        if tempByteAddr.None? {
          return Err(NotDigits(head[i..]));
        }
        byteAddr := tempByteAddr.value % 0x1_0000_0000;
        break;
      }
      i := i + 1;
    }
    assert ByteOffset(s) == Ok(byteAddr);
    return Ok(VmAddr(addrType.value, byteAddr, bitAddr));
  }

  /** A digit with no digit before it is the first one. */
  lemma FirstDigitAt(s: string, i: nat)
    requires i < |s| && IsDigit(s[i])
    requires forall j | 0 <= j < i :: !IsDigit(s[j])
    ensures IndexOfDigit(s) == i
  {
  }

  /** The canonical text of an address: `V<n>`, `VW<n>`, `VD<n>` and
      `V<n>.<b>`. Counter, Timer, Real and unnamed tags have no text form. */
  function Format(a: VmAddr): Option<string> {
    if a.dataType == Byte then Some("V" + Itoa(a.byte))
    else if a.dataType == Word then Some("VW" + Itoa(a.byte))
    else if a.dataType == DWord then Some("VD" + Itoa(a.byte))
    else if a.dataType == Bit && a.bit < 8 then Some("V" + Itoa(a.byte) + "." + [DigitChar(a.bit)])
    else None
  }

  /** The addresses the four patterns are meant to describe: a byte, word or
      double word with bit 0, or a bit 0-7 of one of the bytes 0-9999 (the
      Bit pattern allows at most four offset digits). */
  predicate Canonical(a: VmAddr) {
    || (a.dataType in {Byte, Word, DWord} && a.bit == 0)
    || (a.dataType == Bit && a.bit < 8 && a.byte < 10000)
  }

  lemma {:induction false} IndexOfAppend(a: string, b: string, c: char)
    requires forall j | 0 <= j < |a| :: a[j] != c
    ensures IndexOf(a + b, c) == |a| + IndexOf(b, c)
  {
    if a == [] {
      assert a + b == b;
    } else {
      assert (a + b)[1..] == a[1..] + b;
      IndexOfAppend(a[1..], b, c);
    }
  }

  lemma {:induction false} IndexOfDigitAppend(a: string, b: string)
    requires forall j | 0 <= j < |a| :: !IsDigit(a[j])
    ensures IndexOfDigit(a + b) == |a| + IndexOfDigit(b)
  {
    if a == [] {
      assert a + b == b;
    } else {
      assert (a + b)[1..] == a[1..] + b;
      IndexOfDigitAppend(a[1..], b);
    }
  }

  /** Where the first dot and the first digit of `prefix + digits + suffix`
      are, when the prefix has neither and the digits have no dot. */
  lemma CanonicalText(prefix: string, digits: string, suffix: string)
    requires AllDigits(digits) && |digits| > 0
    requires forall j | 0 <= j < |prefix| :: prefix[j] != '.' && !IsDigit(prefix[j])
    ensures IndexOf(prefix + digits + suffix, '.') == |prefix| + |digits| + IndexOf(suffix, '.')
    ensures IndexOfDigit(prefix + digits) == |prefix|
    ensures (prefix + digits + suffix)[..|prefix| + |digits|] == prefix + digits
    ensures (prefix + digits)[|prefix|..] == digits
  {
    assert prefix + digits + suffix == prefix + (digits + suffix);
    IndexOfAppend(prefix, digits + suffix, '.');
    IndexOfAppend(digits, suffix, '.');
    IndexOfDigitAppend(prefix, digits);
  }

  /** The byte offset of `prefix + Itoa(n) + suffix` is `n` cut to 32 bits
      (`uint32(n)`), for any `n` that `Atoi` accepts, when the prefix has no
      dot and no digit and the suffix is empty or starts with a dot. */
  lemma ByteOffsetTruncates(prefix: string, n: nat, suffix: string)
    requires n <= MaxInt
    requires forall j | 0 <= j < |prefix| :: prefix[j] != '.' && !IsDigit(prefix[j])
    requires suffix == [] || suffix[0] == '.'
    ensures ByteOffset(prefix + Itoa(n) + suffix) == Ok(n % 0x1_0000_0000)
  {
    var digits := Itoa(n);
    var s := prefix + digits + suffix;
    CanonicalText(prefix, digits, suffix);
    assert IndexOf(suffix, '.') == 0;
    AtoiItoa(n);
    ByteOffsetFrom(s, prefix + digits, |prefix|, n);
  }

  /** For an offset that fits in 32 bits the truncation changes nothing. */
  lemma ByteOffsetOfText(prefix: string, n: u32, suffix: string)
    requires forall j | 0 <= j < |prefix| :: prefix[j] != '.' && !IsDigit(prefix[j])
    requires suffix == [] || suffix[0] == '.'
    ensures ByteOffset(prefix + Itoa(n) + suffix) == Ok(n)
  {
    var m: nat := n as nat;
    assert m % 0x1_0000_0000 == m;
    ByteOffsetTruncates(prefix, m, suffix);
  }

  lemma ByteOffsetFrom(s: string, head: string, i: nat, n: int)
    requires FirstField(s) == head && i < |head| && IndexOfDigit(head) == i
    requires Atoi(head[i..]) == Some(n)
    ensures ByteOffset(s) == Ok(n % 0x1_0000_0000)
  {
    var h := FirstField(s);
    assert h == head;
    assert IndexOfDigit(h) == i && i != |h|;
  }

  /** `V<n>` is classified as a byte address. */
  lemma TypeOfByteText(n: nat)
    ensures ParseType("V" + Itoa(n)) == Ok(Byte)
  {
    var s := "V" + Itoa(n);
    assert forall i | 1 <= i < |s| :: IsDigit(s[i]);
    assert !MatchesBit(s);
    assert ByteMatchAt(s, 0);
  }

  /** `VW<n>` and `VD<n>` are classified as word and double-word addresses. */
  lemma TypeOfLetterText(letter: char, n: u32)
    requires letter == 'W' || letter == 'D'
    ensures ParseType(['V', letter] + Itoa(n)) == Ok(if letter == 'W' then Word else DWord)
  {
    var s := ['V', letter] + Itoa(n);
    assert forall i | 2 <= i < |s| :: IsDigit(s[i]);
    assert !MatchesBit(s);
    assert !MatchesByte(s) by {
      forall i | 0 <= i < |s| ensures !ByteMatchAt(s, i) {
        if i >= 2 {
          assert IsDigit(s[i]);
        }
      }
    }
    assert LetterMatchAt(s, 0, letter);
    if letter == 'D' {
      forall i | 0 <= i < |s| ensures !LetterMatchAt(s, i, 'W') {
        if i >= 2 {
          assert IsDigit(s[i]);
        }
      }
    }
  }

  /** `V<n>.<b>` is a bit address when `n` has at most four digits and a
      byte address otherwise. */
  lemma TypeOfBitText(n: u32, b: u8)
    requires b < 8
    ensures ParseType("V" + Itoa(n) + ("." + [DigitChar(b)])) == Ok(if n < 10000 then Bit else Byte)
  {
    var digits := Itoa(n);
    var k := |digits|;
    var s := "V" + digits + ("." + [DigitChar(b)]);
    ItoaLength(n, 4);
    assert forall j | 1 <= j < 1 + k :: s[j] == digits[j - 1];
    assert s[1 + k] == '.' && s[2 + k] == DigitChar(b);
    if n < 10000 {
      assert s[1..1 + k] == digits;
      assert BitMatchAt(s, 0, k);
    } else {
      assert forall i | 1 <= i < |s| :: s[i] != 'V';
      assert forall m | 1 <= m <= 4 :: !BitMatchAt(s, 0, m) by {
        forall m | 1 <= m <= 4 ensures !BitMatchAt(s, 0, m) {
          assert IsDigit(s[1 + m]);
        }
      }
      assert !MatchesBit(s);
      assert ByteMatchAt(s, 0);
    }
  }

  /** The fields of `head.field` when neither part has a dot. */
  lemma FieldsOf(head: string, field: string)
    requires forall j | 0 <= j < |head| :: head[j] != '.'
    requires forall j | 0 <= j < |field| :: field[j] != '.'
    ensures FirstField(head + ("." + field)) == head
    ensures SecondField(head + ("." + field)) == Some(field)
  {
    var s := head + ("." + field);
    IndexOfAppend(head, "." + field, '.');
    assert IndexOf(s, '.') == |head|;
    assert s[|head| + 1..] == field;
    assert IndexOf(field, '.') == |field|;
    assert field[..|field|] == field;
  }

  /** The bit number of `V<digits>.<b>` is the digit `b`. */
  lemma BitNumberOfText(n: u32, b: u8)
    requires b < 10
    ensures BitNumber("V" + Itoa(n) + ("." + [DigitChar(b)])) == Ok(b)
  {
    NoDotInNumber(n);
    DigitText(b);
    BitNumberOfFields("V" + Itoa(n), [DigitChar(b)], b as int);
    assert (b as int) % 0x100 == b as int;
  }

  /** `V<digits>` has no dot. */
  lemma NoDotInNumber(n: u32)
    ensures forall j | 0 <= j < |"V" + Itoa(n)| :: ("V" + Itoa(n))[j] != '.'
  {
    var digits := Itoa(n);
    var head := "V" + digits;
    forall j | 0 <= j < |head| ensures head[j] != '.' {
      if j > 0 {
        assert head[j] == digits[j - 1];
      }
    }
  }

  /** A single digit reads back as its value and has no dot. */
  lemma DigitText(b: u8)
    requires b < 10
    ensures Atoi([DigitChar(b)]) == Some(b as int)
    ensures forall j | 0 <= j < |[DigitChar(b)]| :: [DigitChar(b)][j] != '.'
  {
    assert Itoa(b as nat) == [DigitChar(b)];
    AtoiItoa(b as nat);
  }

  /** The bit number of `head.field` when neither part has a dot. */
  lemma BitNumberOfFields(head: string, field: string, n: int)
    requires forall j | 0 <= j < |head| :: head[j] != '.'
    requires forall j | 0 <= j < |field| :: field[j] != '.'
    requires Atoi(field) == Some(n)
    ensures BitNumber(head + ("." + field)) == Ok(n % 0x100)
  {
    FieldsOf(head, field);
    BitNumberFrom(head + ("." + field), field, n);
  }

  lemma BitNumberFrom(s: string, field: string, n: int)
    requires SecondField(s) == Some(field) && Atoi(field) == Some(n)
    ensures BitNumber(s) == Ok(n % 0x100)
  {
    var f := SecondField(s);
    assert f.Some? && f.value == field;
    assert Atoi(f.value) == Some(n);
  }

  /** Parsing the canonical text of a byte, word or double-word address
      gives the address back. */
  lemma ParsesFormatPrefixed(a: VmAddr)
    requires a.dataType in {Byte, Word, DWord} && a.bit == 0
    ensures Format(a).Some? && ParseAddr(Format(a).value) == Ok(a)
  {
    var prefix := if a.dataType == Byte then "V" else if a.dataType == Word then "VW" else "VD";
    var s := prefix + Itoa(a.byte);
    assert Format(a) == Some(s);
    if a.dataType == Byte {
      TypeOfByteText(a.byte);
    } else {
      TypeOfLetterText(prefix[1], a.byte);
    }
    ByteOffsetOfText(prefix, a.byte, "");
    assert s + "" == s;
    CanonicalText(prefix, Itoa(a.byte), "");
    assert BitNumber(s) == Ok(0);
  }

  /** Parsing the canonical text of a bit address gives the address back,
      except that an offset of five or more digits makes it a byte address
      (with the same offset and bit number). */
  lemma ParsesFormatBit(a: VmAddr)
    requires a.dataType == Bit && a.bit < 8
    ensures Format(a).Some?
    ensures ParseAddr(Format(a).value) == Ok(VmAddr(if a.byte < 10000 then Bit else Byte, a.byte, a.bit))
  {
    var suffix := "." + [DigitChar(a.bit)];
    var s := "V" + Itoa(a.byte) + suffix;
    assert "V" + Itoa(a.byte) + "." + [DigitChar(a.bit)] == s;
    TypeOfBitText(a.byte, a.bit);
    BitNumberOfText(a.byte, a.bit);
    ByteOffsetOfText("V", a.byte, suffix);
  }

  /** Format/Parse round trip: every canonical address survives rendering
      and parsing. */
  lemma ParseFormatRoundTrip(a: VmAddr)
    requires Canonical(a)
    ensures Format(a).Some? && ParseAddr(Format(a).value) == Ok(a)
  {
    if a.dataType == Bit {
      ParsesFormatBit(a);
    } else {
      ParsesFormatPrefixed(a);
    }
  }

  /** `V4294967296` is accepted and wraps around to byte 0: the offset is
      cut to 32 bits without a range check. */
  lemma WrappedOffsetExample()
    ensures ParseAddr("V" + Itoa(0x1_0000_0000)) == Ok(VmAddr(Byte, 0, 0))
  {
    var s := "V" + Itoa(0x1_0000_0000);
    TypeOfByteText(0x1_0000_0000);
    ByteOffsetTruncates("V", 0x1_0000_0000, "");
    assert s + "" == s;
    CanonicalText("V", Itoa(0x1_0000_0000), "");
    assert BitNumber(s) == Ok(0);
  }

  /** A bit address whose offset has five or more digits does not match
      the Bit pattern and falls through to the Byte pattern, keeping the
      bit number. */
  lemma LongBitAddressIsByte(a: VmAddr)
    requires a.dataType == Bit && a.bit < 8 && a.byte >= 10000
    ensures Format(a).Some? && ParseAddr(Format(a).value) == Ok(VmAddr(Byte, a.byte, a.bit))
  {
    ParsesFormatBit(a);
  }

  /** `V<n>.8` and `V<n>.9` do not match the Bit pattern (its bit digit is
      `[0-7]`), fall through to the Byte pattern, and keep 8 or 9 as the
      bit number. */
  lemma TypeOfHighBitText(n: u32, b: u8)
    requires 8 <= b < 10
    ensures ParseType("V" + Itoa(n) + ("." + [DigitChar(b)])) == Ok(Byte)
  {
    var digits := Itoa(n);
    var k := |digits|;
    var s := "V" + digits + ("." + [DigitChar(b)]);
    assert forall j | 1 <= j < 1 + k :: s[j] == digits[j - 1];
    assert s[1 + k] == '.' && s[2 + k] == DigitChar(b);
    assert forall i | 1 <= i < |s| :: s[i] != 'V';
    forall m | 1 <= m <= 4 ensures !BitMatchAt(s, 0, m) {
      if m < k {
        assert IsDigit(s[1 + m]);
      }
    }
    assert !MatchesBit(s);
    assert ByteMatchAt(s, 0);
  }

  lemma ParsesHighBitAsByte(n: u32, b: u8)
    requires 8 <= b < 10
    ensures ParseAddr("V" + Itoa(n) + ("." + [DigitChar(b)])) == Ok(VmAddr(Byte, n, b))
  {
    TypeOfHighBitText(n, b);
    BitNumberOfText(n, b);
    ByteOffsetOfText("V", n, "." + [DigitChar(b)]);
  }

  /** The unanchored Bit pattern accepts `V2.45` (it matches `V2.4`), and
      the whole second field becomes the bit number: bit 45. */
  lemma LongBitFieldExample()
    ensures ParseAddr("V2.45") == Ok(VmAddr(Bit, 2, 45))
  {
    var s := "V2.45";
    assert BitMatchAt(s, 0, 1) by {
      assert s[1..2] == "2";
    }
    LongBitFieldNumber();
    ShortHeadOffset(s);
    ParseAddrOf(s, Bit, 45, 2);
  }

  lemma LongBitFieldNumber()
    ensures FirstField("V2.45") == "V2"
    ensures BitNumber("V2.45") == Ok(45)
  {
    FieldsOf("V2", "45");
    assert "V2" + ("." + "45") == "V2.45";
    assert DecimalValue("45") == 45 by {
      assert "45"[..1] == "4";
    }
    BitNumberFrom("V2.45", "45", 45);
  }

  /** `V2.9` falls through to Byte and keeps bit 9. */
  lemma HighBitDigitExample()
    ensures ParseAddr("V2.9") == Ok(VmAddr(Byte, 2, 9))
  {
    assert Itoa(2) == "2" && DigitChar(9) == '9';
    assert "V" + "2" + ("." + ['9']) == "V2.9";
    ParsesHighBitAsByte(2, 9);
  }

  /** `V2.-1` is a Byte address whose bit number `uint8(-1)` is 255. */
  lemma NegativeBitFieldExample()
    ensures ParseAddr("V2.-1") == Ok(VmAddr(Byte, 2, 255))
  {
    var s := "V2.-1";
    NegativeBitFieldType();
    NegativeBitFieldNumber();
    ShortHeadOffset(s);
    ParseAddrOf(s, Byte, 255, 2);
  }

  lemma NegativeBitFieldNumber()
    ensures FirstField("V2.-1") == "V2"
    ensures BitNumber("V2.-1") == Ok(255)
  {
    FieldsOf("V2", "-1");
    assert "V2" + ("." + "-1") == "V2.-1";
    AtoiSigned();
    BitNumberFrom("V2.-1", "-1", -1);
  }

  lemma NegativeBitFieldType()
    ensures ParseType("V2.-1") == Ok(Byte)
  {
    var s := "V2.-1";
    forall i, k | 0 <= i < |s| && 1 <= k <= 4 ensures !BitMatchAt(s, i, k) {
      if i == 0 && k == 1 {
        assert s[3] == '-';
      }
    }
    assert ByteMatchAt(s, 0);
  }

  /** A parse succeeds with the three parts it found. */
  lemma ParseAddrOf(s: string, t: DataType, bit: u8, offset: u32)
    requires ParseType(s) == Ok(t) && BitNumber(s) == Ok(bit) && ByteOffset(s) == Ok(offset)
    ensures ParseAddr(s) == Ok(VmAddr(t, offset, bit))
  {
  }

  /** The byte offset of a text whose first field is `V2`. */
  lemma ShortHeadOffset(s: string)
    requires FirstField(s) == "V2"
    ensures ByteOffset(s) == Ok(2)
  {
    assert IndexOfDigit("V2") == 1;
    assert "V2"[1..] == "2";
    assert Atoi("2") == Some(2);
  }

  /** A text with no `V` matches none of the four patterns and is refused
      before any field is looked at. */
  lemma NoVIsRefused(s: string)
    requires forall i | 0 <= i < |s| :: s[i] != 'V'
    ensures ParseType(s) == Err(UnknownAddressFormat)
    ensures ParseAddr(s) == Err(UnknownAddressFormat)
  {
  }

  /** A bit field that `Atoi` rejects is reported as not digits, whatever
      the type. */
  lemma BitFieldNotDigits(s: string, field: string)
    requires ParseType(s).Ok? && SecondField(s) == Some(field) && Atoi(field).None?
    ensures ParseAddr(s) == Err(NotDigits(field))
  {
  }

  /** An offset part that `Atoi` rejects from its first digit on is
      reported as not digits, once the bit field has parsed. */
  lemma OffsetNotDigits(s: string)
    requires ParseType(s).Ok? && BitNumber(s).Ok?
    requires var head := FirstField(s);
      IndexOfDigit(head) < |head| && Atoi(head[IndexOfDigit(head)..]).None?
    ensures var head := FirstField(s);
      ParseAddr(s) == Err(NotDigits(head[IndexOfDigit(head)..]))
  {
  }

  /** `X5` and `VQ10` match no pattern. */
  lemma UnknownFormatExamples()
    ensures ParseAddr("X5") == Err(UnknownAddressFormat)
    ensures ParseAddr("VQ10") == Err(UnknownAddressFormat)
  {
    NoVIsRefused("X5");
    var s := "VQ10";
    forall i | 0 <= i < |s| ensures !ByteMatchAt(s, i) && !LetterMatchAt(s, i, 'W') && !LetterMatchAt(s, i, 'D') {
      if i == 0 {
        assert s[1] == 'Q';
      }
    }
    NoByteMatchNoBitMatch(s);
  }

  /** No Byte match means no Bit match either. */
  lemma NoByteMatchNoBitMatch(s: string)
    requires !MatchesByte(s)
    ensures !MatchesBit(s)
  {
    if MatchesBit(s) {
      BitMatchImpliesByteMatch(s);
    }
  }

  /** `V2.x` has a bit field that is not digits. */
  lemma BitFieldNotDigitsExample()
    ensures ParseAddr("V2.x") == Err(NotDigits("x"))
  {
    assert ByteMatchAt("V2.x", 0);
    FieldsOf("V2", "x");
    assert "V2" + ("." + "x") == "V2.x";
    BitFieldNotDigits("V2.x", "x");
  }

  /** `V2x` has an offset part that is not digits. */
  lemma OffsetNotDigitsExample()
    ensures ParseAddr("V2x") == Err(NotDigits("2x"))
  {
    var s := "V2x";
    assert ByteMatchAt(s, 0);
    assert IndexOf(s, '.') == 3;
    assert SecondField(s).None?;
    assert FirstField(s) == s;
    assert IndexOfDigit(s) == 1;
    assert s[1..] == "2x";
    assert !IsDigit("2x"[1]);
    OffsetNotDigits(s);
  }
}
