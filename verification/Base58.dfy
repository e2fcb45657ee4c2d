/** Base58 text: the minimal base-58 numeral of the bytes read as a number, behind one '1' for every
    leading zero byte; and the in-place long division that computes it. */
module Base58 {
  import opened Sequences
  import opened Bits
  import opened Radix

  const TMP_SIZE: nat := 64

  /** The code of digit `i` in BASE_58_ALPHABET: the ASCII order of 1-9, A-Z and a-z without I, O and l. */
  function LetterCode(i: nat): (c: nat)
    requires i < 58
    ensures '1' as nat <= c <= 'z' as nat
  {
    if i < 9 then '1' as nat + i
    else if i < 17 then 'A' as nat + (i - 9)
    else if i < 22 then 'J' as nat + (i - 17)
    else if i < 33 then 'P' as nat + (i - 22)
    else if i < 44 then 'a' as nat + (i - 33)
    else 'm' as nat + (i - 44)
  }

  function Alphabet(): (a: seq<char>)
    ensures |a| == 58 && forall i :: 0 <= i < 58 ==> a[i] as nat == LetterCode(i)
  {
    seq(58, i requires 0 <= i < 58 => LetterCode(i) as char)
  }

  const LETTERS := "123456789ABCDEFGHJKLMN" + "PQRSTUVWXYZabcdefghijkmnopqrstuvwxyz"

  /** The alphabet letter by letter. */
  lemma {:induction false} AlphabetText()
    ensures Alphabet() == LETTERS
  {
    assert |LETTERS| == 58;
    forall i | 0 <= i < 58 ensures LETTERS[i] as nat == LetterCode(i) {
      if i < 9 {
        Digits9(i);
      } else if i < 22 {
        FirstCapitals(i);
      } else if i < 33 {
        LastCapitals(i);
      } else {
        Smalls(i);
      }
    }
  }

  lemma {:induction false} Digits9(i: nat)
    requires i < 9
    ensures |LETTERS| == 58 && LETTERS[i] as nat == LetterCode(i)
  {}

  lemma {:induction false} FirstCapitals(i: nat)
    requires 9 <= i < 22
    ensures |LETTERS| == 58 && LETTERS[i] as nat == LetterCode(i)
  {}

  lemma {:induction false} LastCapitals(i: nat)
    requires 22 <= i < 33
    ensures |LETTERS| == 58 && LETTERS[i] as nat == LetterCode(i)
  {}

  lemma {:induction false} Smalls(i: nat)
    requires 33 <= i < 58
    ensures |LETTERS| == 58 && LETTERS[i] as nat == LetterCode(i)
  {}

  // ---- the text ----

  function LeadingZeros(b: seq<nat>): (z: nat)
    ensures z <= |b|
  {
    if b == [] || b[0] != 0 then 0 else 1 + LeadingZeros(b[1..])
  }

  function Spell(alphabet: seq<char>, d: seq<nat>): (t: seq<char>)
    requires forall i :: 0 <= i < |d| ==> d[i] < |alphabet|
    ensures |t| == |d| && forall i :: 0 <= i < |d| ==> t[i] == alphabet[d[i]]
  {
    seq(|d|, i requires 0 <= i < |d| => alphabet[d[i]])
  }

  predicate Usable(alphabet: seq<char>) {
    && 16 <= |alphabet| <= 256
    && forall i, j :: 0 <= i < j < |alphabet| ==> alphabet[i] != alphabet[j]
  }

  /** The digits: a zero for every leading zero byte, then the numeral. */
  function TextDigits(b: seq<byte>, base: nat): (d: seq<nat>)
    requires base >= 2
    ensures forall i :: 0 <= i < |d| ==> d[i] < base
  {
    Repeat(0, LeadingZeros(b)) + Digits(FromDigits(b, 256), base)
  }

  function Encode(alphabet: seq<char>, b: seq<byte>): seq<char>
    requires Usable(alphabet)
  {
    Spell(alphabet, TextDigits(b, |alphabet|))
  }

  // ---- reading the text back ----

  function IndexOf(alphabet: seq<char>, c: char): (i: nat)
    requires c in alphabet
    ensures i < |alphabet| && alphabet[i] == c
  {
    if alphabet[0] == c then 0 else 1 + IndexOf(alphabet[1..], c)
  }

  function Unspell(alphabet: seq<char>, t: seq<char>): (d: seq<nat>)
    requires forall c :: c in t ==> c in alphabet
    ensures |d| == |t| && forall i :: 0 <= i < |t| ==> d[i] < |alphabet| && alphabet[d[i]] == t[i]
  {
    seq(|t|, i requires 0 <= i < |t| => IndexOf(alphabet, t[i]))
  }

  function Decode(alphabet: seq<char>, t: seq<char>): seq<nat>
    requires Usable(alphabet) && forall c :: c in t ==> c in alphabet
  {
    var d := Unspell(alphabet, t);
    Repeat(0, LeadingZeros(d)) + Digits(FromDigits(d, |alphabet|), 256)
  }

  lemma {:induction false} LeadingZero(d: seq<nat>, base: nat)
    requires d != [] && d[0] == 0
    ensures FromDigits(d, base) == FromDigits(d[1..], base)
    decreases |d|
  {
    if |d| > 1 {
      LeadingZero(d[..|d| - 1], base);
      assert d[..|d| - 1][1..] == d[1..][..|d| - 2];
    }
  }

  /** Zeros in front: their number, and that they do not count. */
  lemma {:induction false} ZerosInFront(z: nat, d: seq<nat>, base: nat)
    requires d != [] ==> d[0] != 0
    ensures LeadingZeros(Repeat(0, z) + d) == z && FromDigits(Repeat(0, z) + d, base) == FromDigits(d, base)
    decreases z
  {
    var all := Repeat(0, z) + d;
    if z == 0 {
      assert all == d;
    } else {
      assert all[1..] == Repeat(0, z - 1) + d;
      ZerosInFront(z - 1, d, base);
      LeadingZero(all, base);
    }
  }

  lemma {:induction false} SplitZeros(b: seq<nat>)
    ensures b == Repeat(0, LeadingZeros(b)) + b[LeadingZeros(b)..]
    ensures b[LeadingZeros(b)..] != [] ==> b[LeadingZeros(b)..][0] != 0
  {
    if b != [] && b[0] == 0 {
      SplitZeros(b[1..]);
      var z := LeadingZeros(b[1..]);
      assert b[1..][z..] == b[z + 1..];
      OneMoreZero(b, z);
    }
  }

  lemma {:induction false} OneMoreZero(b: seq<nat>, z: nat)
    requires b != [] && b[0] == 0 && z < |b| && b[1..] == Repeat(0, z) + b[z + 1..]
    ensures b == Repeat(0, z + 1) + b[z + 1..]
  {
    assert Repeat(0, z + 1) == [0] + Repeat(0, z);
    hide Repeat;
    assert b == [0] + b[1..];
    assert [0] + (Repeat(0, z) + b[z + 1..]) == ([0] + Repeat(0, z)) + b[z + 1..];
  }

  lemma {:induction false} UnspellSpell(alphabet: seq<char>, d: seq<nat>)
    requires Usable(alphabet) && forall i :: 0 <= i < |d| ==> d[i] < |alphabet|
    ensures forall c :: c in Spell(alphabet, d) ==> c in alphabet
    ensures Unspell(alphabet, Spell(alphabet, d)) == d
  {
    var t := Spell(alphabet, d);
    forall i | 0 <= i < |d| ensures Unspell(alphabet, t)[i] == d[i] {
      assert alphabet[Unspell(alphabet, t)[i]] == alphabet[d[i]];
    }
  }

  /** The same digits in the other base. */
  lemma {:induction false} DigitsBack(b: seq<byte>, base: nat)
    requires base >= 2
    ensures var d := TextDigits(b, base);
      Repeat(0, LeadingZeros(d)) + Digits(FromDigits(d, base), 256) == b
  {
    hide Digits, FromDigits, LeadingZeros, Repeat;
    var z, v := LeadingZeros(b), FromDigits(b, 256);
    DigitsMinimal(v, base);
    ZerosInFront(z, Digits(v, base), base);
    DigitsReadBack(v, base);
    SplitZeros(b);
    ZerosInFront(z, b[z..], 256);
    NumeralUnique(b[z..], 256);
  }

  /** The text decodes to the bytes it was made from, so different bytes have different texts. */
  lemma {:induction false} RoundTrip(alphabet: seq<char>, b: seq<byte>)
    requires Usable(alphabet)
    ensures forall c :: c in Encode(alphabet, b) ==> c in alphabet
    ensures Decode(alphabet, Encode(alphabet, b)) == b
  {
    hide Digits, FromDigits, LeadingZeros, Repeat, TextDigits, Unspell, Spell;
    UnspellSpell(alphabet, TextDigits(b, |alphabet|));
    DigitsBack(b, |alphabet|);
  }

  lemma {:induction false} AlphabetUsable()
    ensures Usable(Alphabet()) && |Alphabet()| == 58
  {}

  /** The letter a and a zero byte. */
  lemma {:induction false} TwoTexts()
    ensures Encode58([0x61]) == "2g" && Encode58([0]) == "1"
  {
    AlphabetUsable();
    AlphabetText();
    LastLetters();
    OneByte(0x61);
    OneByte(0);
    DigitsStep(97, 58);
    DigitsStep(1, 58);
    assert Digits(0, 58) == [];
    assert Digits(1, 58) == [] + [1] && Digits(97, 58) == [1] + [39];
    assert Repeat(0, 0) + [1, 39] == [1, 39] && Repeat(0, 1) + [] == [0];
    assert TextDigits([0x61], 58) == [1, 39] && TextDigits([0], 58) == [0];
  }

  lemma {:induction false} OneByte(b: byte)
    ensures FromDigits([b], 256) == b && LeadingZeros([b]) == if b == 0 then 1 else 0
  {
    assert [b][..0] == [] && [b][1..] == [];
  }

  lemma {:induction false} LastLetters()
    ensures |LETTERS| == 58 && LETTERS[0] == '1' && LETTERS[1] == '2' && LETTERS[39] == 'g'
  {}

  // ---- long division ----

  /** One byte of a division pass: quotient digit and remainder go on with what came before. */
  lemma {:induction false} DivideByte(quotient: nat, remainder: nat, digit: byte, base: nat)
    requires 2 <= base <= 256 && remainder < base
    ensures var n := remainder * 256 + digit;
      && n / base < 256 && n % base < base
      && (0 <= quotient * base && (quotient * base + remainder) * 256 + digit == (quotient * 256 + n / base) * base + n % base)
  {
    var n := remainder * 256 + digit;
    DivModOf(n, base);
    var q, r := n / base, n % base;
    if q >= 256 {
      MulLe(256, q, base);
    }
    assert (quotient * base + remainder) * 256 + digit == quotient * 256 * base + n;
    assert (quotient * 256 + q) * base == quotient * 256 * base + q * base;
  }

  /** The number that bytes stand for, most significant first. */
  ghost function Number(b: seq<byte>): nat {
    FromDigits(b, 256)
  }

  function Quotient(n: nat, base: nat): nat
    requires base > 0
  {
    n / base
  }

  function Remainder(n: nat, base: nat): nat
    requires base > 0
  {
    n % base
  }

  /** A prefix of the dividend against the same prefix of the quotient. */
  ghost predicate Divided(input: seq<byte>, quotient: seq<byte>, remainder: nat, base: nat) {
    remainder < base && Number(input) == Number(quotient) * base + remainder
  }

  lemma {:induction false} DivideNext(input: seq<byte>, quotient: seq<byte>, remainder: nat, digit: byte, base: nat, q: nat, r: nat)
    requires 2 <= base <= 256 && Divided(input, quotient, remainder, base)
    requires q == Quotient(remainder * 256 + digit, base) && r == Remainder(remainder * 256 + digit, base)
    ensures q < 256
    ensures Divided(input + [digit], quotient + [q], r, base)
  {
    hide Number;
    DivideByte(Number(quotient), remainder, digit, base);
    JoinDivided(input, quotient, remainder, digit, q, r, base);
  }

  lemma {:induction false} JoinDivided(input: seq<byte>, quotient: seq<byte>, remainder: nat, digit: byte, q: byte, r: nat, base: nat)
    requires Divided(input, quotient, remainder, base) && r < base
    requires (Number(quotient) * base + remainder) * 256 + digit == (Number(quotient) * 256 + q) * base + r
    ensures Divided(input + [digit], quotient + [q], r, base)
  {
    FromDigitsSnoc(input, digit, 256);
    FromDigitsSnoc(quotient, q, 256);
    hide FromDigits;
  }

  lemma {:induction false} RemainderBound(input: seq<byte>, quotient: seq<byte>, remainder: nat, base: nat)
    requires Divided(input, quotient, remainder, base)
    ensures remainder < base
  {}

  lemma {:induction false} NothingDivided(base: nat)
    requires base > 0
    ensures Divided([], [], 0, base)
  {}

  /** A division pass over tmp[startAt..n]; the remainder is the next digit. */
  method DividePass(tmp: array<byte>, startAt: nat, n: nat, base: nat) returns (remainder: nat)
    requires startAt <= n <= tmp.Length && 2 <= base <= 256
    modifies tmp
    ensures tmp[..startAt] == old(tmp[..startAt]) && tmp[n..] == old(tmp[n..])
    ensures Divided(old(tmp[startAt..n]), tmp[startAt..n], remainder, base)
    ensures startAt < n ==> tmp[startAt] == Quotient(old(tmp[startAt]), base)
  {
    hide Divided, Quotient, Remainder;
    remainder := 0;
    NothingDivided(base);
    ghost var input := tmp[startAt..n];
    assert input[..0] == [] && tmp[startAt..startAt] == [];
    for i := startAt to n
      invariant tmp[..startAt] == old(tmp[..startAt]) && tmp[i..] == old(tmp[i..])
      invariant Divided(input[..i - startAt], tmp[startAt..i], remainder, base)
      invariant i == startAt ==> remainder == 0
      invariant startAt < i ==> tmp[startAt] == Quotient(old(tmp[startAt]), base)
    {
      var tmpDiv := remainder * 256 + tmp[i];
      DivideNext(input[..i - startAt], tmp[startAt..i], remainder, tmp[i], base, Quotient(tmpDiv, base), Remainder(tmpDiv, base));
      ghost var before := tmp[startAt..i];
      assert tmp[i] == input[i - startAt];
      assert input[..i + 1 - startAt] == input[..i - startAt] + [input[i - startAt]];
      tmp[i] := Quotient(tmpDiv, base);
      remainder := Remainder(tmpDiv, base);
      assert tmp[startAt..i + 1] == before + [tmp[i]];
    }
    assert input[..n - startAt] == input;
  }

  // ---- the conversion ----

  lemma {:induction false} Prepend(r: nat, d: seq<nat>, base: nat)
    ensures r * Power(base, |d|) >= 0 && FromDigits([r] + d, base) == r * Power(base, |d|) + FromDigits(d, base)
    decreases |d|
  {
    if d == [] {
      assert [r] + d == [r] && [r][..0] == [];
    } else {
      var front, last := d[..|d| - 1], d[|d| - 1];
      Prepend(r, front, base);
      assert ([r] + d)[..|d|] == [r] + front;
      FactorOut(r, Power(base, |front|), base, FromDigits(front, base), last);
    }
  }

  lemma {:induction false} FactorOut(r: nat, p: nat, base: nat, f: nat, last: nat)
    ensures r * (base * p) >= 0 && (r * p + f) * base + last == r * (base * p) + (f * base + last)
  {
    assert r * (base * p) == r * p * base;
  }

  /** The value that is still to be divided, above the digits already found. */
  ghost predicate Converting(value: nat, rest: seq<byte>, digits: seq<nat>, base: nat) {
    && (forall i :: 0 <= i < |digits| ==> digits[i] < base)
    && Number(rest) * Power(base, |digits|) >= 0
    && value == Number(rest) * Power(base, |digits|) + FromDigits(digits, base)
  }

  lemma {:induction false} FoundDigit(value: nat, rest: seq<byte>, quotient: seq<byte>, remainder: nat, digits: seq<nat>, base: nat)
    requires Converting(value, rest, digits, base) && Divided(rest, quotient, remainder, base)
    ensures Converting(value, quotient, [remainder] + digits, base)
  {
    Prepend(remainder, digits, base);
    hide FromDigits, Number;
    var p := Power(base, |digits|);
    assert Number(quotient) * (base * p) == Number(quotient) * base * p;
    assert (Number(quotient) * base + remainder) * p == Number(quotient) * base * p + remainder * p;
  }

  lemma {:induction false} Unconverted(b: seq<byte>, base: nat)
    ensures Converting(Number(b), b, [], base)
  {}

  lemma {:induction false} DropZero(value: nat, rest: seq<byte>, digits: seq<nat>, base: nat)
    requires Converting(value, rest, digits, base) && rest != [] && rest[0] == 0
    ensures Converting(value, rest[1..], digits, base)
  {
    LeadingZero(rest, 256);
    hide FromDigits, Power;
  }

  /** Every position of the number takes at most two passes: the second one divides less than the base. */
  predicate Room(ix: nat, startAt: nat, zeroCount: nat, n: nat, top: nat, base: nat) {
    && zeroCount <= startAt <= n && ix <= 2 * n
    && 2 * n - ix <= 2 * (startAt - zeroCount) + 1
    && (2 * n - ix == 2 * (startAt - zeroCount) + 1 ==> startAt < n && top < base)
  }

  lemma {:induction false} PassRoom(ix: nat, startAt: nat, zeroCount: nat, n: nat, top: byte, base: nat, next: nat)
    requires 16 <= base <= 256 && Room(ix, startAt, zeroCount, n, top, base) && startAt < n
    ensures ix >= 1
    ensures if Quotient(top, base) == 0 then Room(ix - 1, startAt + 1, zeroCount, n, next, base)
            else Room(ix - 1, startAt, zeroCount, n, Quotient(top, base), base)
  {
    DivModOf(top, base);
    if top / base >= base {
      MulLe(16, top / base, base);
    }
    if top < base {
      DivModUnique(0, top, base);
    }
  }

  lemma {:induction false} StartRoom(zeroCount: nat, n: nat, top: nat, base: nat)
    requires zeroCount <= n
    ensures Room(2 * n, zeroCount, zeroCount, n, top, base)
  {}

  lemma {:induction false} EndRoom(ix: nat, zeroCount: nat, n: nat, base: nat)
    requires Room(ix, n, zeroCount, n, 0, base)
    ensures 2 * zeroCount <= ix
  {}

  lemma {:induction false} BaseBounds(alphabet: seq<char>)
    requires Usable(alphabet)
    ensures 16 <= |alphabet| <= 256
  {}

  /** The digits held by a stretch of the character buffer. */
  ghost predicate Shows(alphabet: seq<char>, text: seq<char>, digits: seq<nat>) {
    |text| == |digits| && forall i :: 0 <= i < |text| ==> digits[i] < |alphabet| && text[i] == alphabet[digits[i]]
  }

  lemma {:induction false} ShowsMore(alphabet: seq<char>, text: seq<char>, digits: seq<nat>, r: nat)
    requires Shows(alphabet, text, digits) && r < |alphabet|
    ensures Shows(alphabet, [alphabet[r]] + text, [r] + digits)
  {}

  /** Between two passes: what is left of the number, and the digits behind `bufferIx`. */
  ghost predicate Passing(value: nat, alphabet: seq<char>, rest: seq<byte>, zeroCount: nat, startAt: nat, n: nat,
                          bufferIx: nat, written: seq<char>, digits: seq<nat>)
  {
    && zeroCount <= startAt <= n && bufferIx <= 2 * n && |rest| == n - startAt
    && Room(bufferIx, startAt, zeroCount, n, if rest != [] then rest[0] else 0, |alphabet|)
    && Shows(alphabet, written, digits)
    && Converting(value, rest, digits, |alphabet|)
  }

  lemma {:induction false} StartPassing(alphabet: seq<char>, number: seq<byte>, zeroCount: nat, n: nat)
    requires zeroCount <= n && |number| == n - zeroCount
    ensures Passing(Number(number), alphabet, number, zeroCount, zeroCount, n, 2 * n, [], [])
  {
    Unconverted(number, |alphabet|);
    StartRoom(zeroCount, n, if number != [] then number[0] else 0, |alphabet|);
    hide Converting, Room;
  }

  lemma {:induction false} EndPassing(value: nat, alphabet: seq<char>, zeroCount: nat, n: nat, bufferIx: nat, written: seq<char>, digits: seq<nat>)
    requires Passing(value, alphabet, [], zeroCount, n, n, bufferIx, written, digits)
    ensures 2 * zeroCount <= bufferIx <= 2 * n
    ensures Shows(alphabet, written, digits) && Converting(value, [], digits, |alphabet|)
  {
    hide Converting, Shows;
    EndRoom(bufferIx, zeroCount, n, |alphabet|);
  }

  /** One pass with its remainder: the leading byte of the quotient goes when it is zero. */
  lemma {:induction false} Passed(value: nat, alphabet: seq<char>, rest: seq<byte>, quotient: seq<byte>, remainder: nat,
                                  zeroCount: nat, startAt: nat, n: nat, bufferIx: nat, written: seq<char>, digits: seq<nat>)
    requires Usable(alphabet) && Passing(value, alphabet, rest, zeroCount, startAt, n, bufferIx, written, digits) && startAt < n
    requires Divided(rest, quotient, remainder, |alphabet|) && |quotient| == |rest|
    requires quotient[0] == Quotient(rest[0], |alphabet|)
    ensures bufferIx >= 1 && remainder < |alphabet|
    ensures var onward := if quotient[0] == 0 then quotient[1..] else quotient;
      Passing(value, alphabet, onward, zeroCount, if quotient[0] == 0 then startAt + 1 else startAt, n,
              bufferIx - 1, [alphabet[remainder]] + written, [remainder] + digits)
  {
    BaseBounds(alphabet);
    RemainderBound(rest, quotient, remainder, |alphabet|);
    FoundDigit(value, rest, quotient, remainder, digits, |alphabet|);
    hide Converting, Divided, Room, Shows, Quotient, Usable;
    ShowsMore(alphabet, written, digits, remainder);
    PassRoom(bufferIx, startAt, zeroCount, n, rest[0], |alphabet|, if |quotient| > 1 then quotient[1] else 0);
    if quotient[0] == 0 {
      DropZero(value, quotient, [remainder] + digits, |alphabet|);
    }
  }

  /** `buffer[--bufferIx] = c` */
  method PutBefore(c: char, buffer: array<char>, at: nat, end: nat) returns (bufferIx: nat)
    requires 0 < at <= end <= buffer.Length
    modifies buffer
    ensures bufferIx == at - 1 && buffer[bufferIx..end] == [c] + old(buffer[at..end])
  {
    bufferIx := at - 1;
    buffer[bufferIx] := c;
    assert buffer[bufferIx + 1..end] == old(buffer[at..end]);
  }

  /** The division passes: each puts one more digit into the buffer, from its end. */
  method Convert(alphabet: seq<char>, tmp: array<byte>, zeroCount: nat, n: nat, buffer: array<char>) returns (bufferIx: nat, ghost digits: seq<nat>)
    requires Usable(alphabet) && zeroCount <= n <= tmp.Length && 2 * n <= buffer.Length
    modifies tmp, buffer
    ensures 2 * zeroCount <= bufferIx <= 2 * n
    ensures Shows(alphabet, buffer[bufferIx..2 * n], digits)
    ensures Converting(Number(old(tmp[zeroCount..n])), [], digits, |alphabet|)
  {
    BaseBounds(alphabet);
    hide Converting, Divided, Room, Usable, Shows, Quotient, Number, Passing;
    var base := |alphabet|;
    ghost var value := Number(tmp[zeroCount..n]);
    digits := [];
    bufferIx := 2 * n;
    var startAt := zeroCount;
    StartPassing(alphabet, tmp[zeroCount..n], zeroCount, n);
    assert buffer[bufferIx..2 * n] == [];
    while startAt < n
      invariant startAt <= n && bufferIx <= 2 * n
      invariant Passing(value, alphabet, tmp[startAt..n], zeroCount, startAt, n, bufferIx, buffer[bufferIx..2 * n], digits)
      decreases bufferIx
    {
      ghost var rest, written := tmp[startAt..n], buffer[bufferIx..2 * n];
      var remainder := DividePass(tmp, startAt, n, base);
      Passed(value, alphabet, rest, tmp[startAt..n], remainder, zeroCount, startAt, n, bufferIx, written, digits);
      digits := [remainder] + digits;
      if tmp[startAt] == 0 {
        assert tmp[startAt..n][1..] == tmp[startAt + 1..n];
        startAt := startAt + 1;
      }
      bufferIx := PutBefore(alphabet[remainder], buffer, bufferIx, 2 * n);
    }
    assert tmp[startAt..n] == [];
    EndPassing(value, alphabet, zeroCount, n, bufferIx, buffer[bufferIx..2 * n], digits);
  }

  /** The leading '1's of the quotient digits are dropped: the minimal numeral is left. */
  method Strip(alphabet: seq<char>, buffer: array<char>, from: nat, end: nat, ghost value: nat, ghost digits: seq<nat>) returns (bufferIx: nat)
    requires Usable(alphabet) && from <= end <= buffer.Length
    requires Shows(alphabet, buffer[from..end], digits) && FromDigits(digits, |alphabet|) == value
    ensures from <= bufferIx <= end
    ensures Shows(alphabet, buffer[bufferIx..end], Digits(value, |alphabet|))
  {
    ghost var rest := digits;
    bufferIx := from;
    while bufferIx < end && buffer[bufferIx] == alphabet[0]
      invariant from <= bufferIx <= end
      invariant Shows(alphabet, buffer[bufferIx..end], rest) && FromDigits(rest, |alphabet|) == value
    {
      assert buffer[bufferIx..end][0] == alphabet[rest[0]];
      LeadingZero(rest, |alphabet|);
      assert buffer[bufferIx..end][1..] == buffer[bufferIx + 1..end];
      rest := rest[1..];
      bufferIx := bufferIx + 1;
    }
    if bufferIx < end {
      assert buffer[bufferIx..end][0] == alphabet[rest[0]];
    }
    NumeralUnique(rest, |alphabet|);
  }

  /** encode_base_x. Inputs of more than 64 bytes give an empty text. */
  method EncodeBaseX(alphabet: seq<char>, input: seq<byte>) returns (out: seq<char>)
    requires Usable(alphabet)
    ensures out == if |input| <= TMP_SIZE then Encode(alphabet, input) else []
  {
    out := [];
    var n := |input|;
    if n <= TMP_SIZE {
      var tmp := new byte[TMP_SIZE](i => if 0 <= i < n then input[i] else 0);
      var buffer := new char[2 * TMP_SIZE];
      assert tmp[..n] == input;
      var zeroCount := 0;
      while zeroCount < n && tmp[zeroCount] == 0
        invariant zeroCount <= n && LeadingZeros(input) == zeroCount + LeadingZeros(input[zeroCount..])
      {
        assert input[zeroCount..][1..] == input[zeroCount + 1..];
        zeroCount := zeroCount + 1;
      }
      assert LeadingZeros(input) == zeroCount && tmp[zeroCount..n] == input[zeroCount..];
      out := EncodeTail(alphabet, tmp, zeroCount, n, buffer);
      SplitZeros(input);
      ZerosInFront(zeroCount, input[zeroCount..], 256);
    }
  }

  /** The conversion proper, with the leading zero bytes counted. */
  method EncodeTail(alphabet: seq<char>, tmp: array<byte>, zeroCount: nat, n: nat, buffer: array<char>) returns (out: seq<char>)
    requires Usable(alphabet) && zeroCount <= n <= tmp.Length && 2 * n <= buffer.Length
    modifies tmp, buffer
    ensures out == Spell(alphabet, Repeat(0, zeroCount) + Digits(Number(old(tmp[zeroCount..n])), |alphabet|))
  {
    BaseBounds(alphabet);
    ghost var value := Number(tmp[zeroCount..n]);
    hide Usable, Number;
    ghost var digits;
    var bufferIx;
    bufferIx, digits := Convert(alphabet, tmp, zeroCount, n, buffer);
    Converted(value, digits, |alphabet|);
    bufferIx := Strip(alphabet, buffer, bufferIx, 2 * n, value, digits);
    Spelled(alphabet, zeroCount, buffer[bufferIx..2 * n], Digits(value, |alphabet|));
    bufferIx := Pad(alphabet[0], buffer, bufferIx, 2 * n, zeroCount);
    out := buffer[bufferIx..2 * n];
  }

  /** One first letter of the alphabet for every leading zero byte. */
  method Pad(one: char, buffer: array<char>, from: nat, end: nat, zeroCount: nat) returns (bufferIx: nat)
    requires zeroCount <= from <= end <= buffer.Length
    modifies buffer
    ensures bufferIx <= end && buffer[bufferIx..end] == Repeat(one, zeroCount) + old(buffer[from..end])
  {
    hide Repeat;
    bufferIx := from;
    ghost var tail := buffer[from..end];
    NoneYet(one, tail);
    for k := 0 to zeroCount
      invariant bufferIx == from - k
      invariant buffer[bufferIx..end] == Repeat(one, k) + tail
    {
      bufferIx := PutBefore(one, buffer, bufferIx, end);
      OneMore(one, k, tail);
    }
  }

  lemma {:induction false} NoneYet<T>(one: T, tail: seq<T>)
    ensures tail == Repeat(one, 0) + tail
  {}

  lemma {:induction false} OneMore<T>(one: T, k: nat, tail: seq<T>)
    ensures [one] + (Repeat(one, k) + tail) == Repeat(one, k + 1) + tail
  {}

  lemma {:induction false} Spelled(alphabet: seq<char>, z: nat, text: seq<char>, digits: seq<nat>)
    requires |alphabet| > 0 && Shows(alphabet, text, digits)
    ensures forall i :: 0 <= i < |Repeat(0, z) + digits| ==> (Repeat(0, z) + digits)[i] < |alphabet|
    ensures Repeat(alphabet[0], z) + text == Spell(alphabet, Repeat(0, z) + digits)
  {}

  lemma {:induction false} Converted(value: nat, digits: seq<nat>, base: nat)
    requires Converting(value, [], digits, base)
    ensures FromDigits(digits, base) == value
  {}

  /** encode_base_58. */
  method EncodeBase58(input: seq<byte>) returns (out: seq<char>)
    ensures |input| <= TMP_SIZE ==> out == Encode58(input)
    ensures |input| > TMP_SIZE ==> out == []
  {
    AlphabetUsable();
    out := EncodeBaseX(Alphabet(), input);
  }

  function Encode58(b: seq<byte>): seq<char> {
    AlphabetUsable();
    Encode(Alphabet(), b)
  }
}
