/** src/base122.cc: six bytes travel as seven printable characters. */
module Base122 {
  import opened Positional

  type Byte = n: nat | n < 256

  const WORD: nat := 0x1_0000_0000_0000_0000
  const INVALID: Byte := 0xFF

  // ----- the alphabet and its inverse ------------------------------------------------

  /** Character number `d` of the table.  The literal spells 121 characters as runs of
      consecutive codes (it leaves out '"', ''' and '\'), so character 121 is the NUL that
      ends it. */
  function Alphabet(d: nat): (c: Byte)
    requires d < 122
  {
    if d == 0 then 33 else if d < 5 then d + 34 else if d < 57 then d + 35
    else if d < 91 then d + 36 else if d < 121 then d + 70 else 0
  }

  predicate InAlphabet(c: Byte) {
    exists d: nat :: d < 122 && Alphabet(d) == c
  }

  lemma AlphabetIsInjective(d: nat, e: nat)
    requires d < 122 && e < 122 && Alphabet(d) == Alphabet(e)
    ensures d == e
  {
  }

  /** What the 256-entry table holds for `c`: the number of `c` in the alphabet, or the
      marker for characters outside it. */
  function DigitOf(c: Byte): (v: Byte)
    ensures v != INVALID <==> InAlphabet(c)
    ensures v != INVALID ==> v < 122 && Alphabet(v) == c
  {
    if InAlphabet(c) then
      AlphabetIsInjectiveEverywhere();
      var d: nat :| d < 122 && Alphabet(d) == c;
      d
    else
      INVALID
  }

  lemma AlphabetIsInjectiveEverywhere()
    ensures forall d: nat, e: nat :: d < 122 && e < 122 && Alphabet(d) == Alphabet(e) ==> d == e
  {
  }

  lemma DigitOfAlphabet(d: nat)
    requires d < 122
    ensures DigitOf(Alphabet(d)) == d
  {
  }

  /** Builds the inverse table as the static initializer does: all markers, then one entry
      per alphabet position. */
  method BuildDecodeMap() returns (t: array<Byte>)
    ensures fresh(t) && t.Length == 256
    ensures forall c: Byte :: t[c] == DigitOf(c)
  {
    t := new Byte[256];
    for i := 0 to 256
      invariant forall c :: 0 <= c < i ==> t[c] == INVALID
    {
      t[i] := INVALID;
    }
    for i := 0 to 122
      invariant forall d: nat :: d < i ==> t[Alphabet(d)] == d
      invariant forall c: Byte :: (forall d: nat :: d < i ==> Alphabet(d) != c) ==> t[c] == INVALID
    {
      AlphabetIsInjectiveEverywhere();
      t[Alphabet(i)] := i;
    }
    forall c: Byte ensures t[c] == DigitOf(c) {
      if InAlphabet(c) {
        assert Alphabet(DigitOf(c)) == c;
      }
    }
  }

  // ----- 64-bit words ----------------------------------------------------------------

  /** Shift left by `k` bits, before truncation. */
  function Shl(x: nat, k: nat): nat {
    if k == 0 then x else 2 * Shl(x, k - 1)
  }

  /** Bitwise or. */
  function Or(a: nat, b: nat): nat {
    if a == 0 then b else if b == 0 then a
    else (if a % 2 == 1 || b % 2 == 1 then 1 else 0) + 2 * Or(a / 2, b / 2)
  }

  /** Or-ing a shifted value over lower bits adds it. */
  lemma {:induction false} OrDisjoint(v: nat, x: nat, k: nat)
    requires v < Shl(1, k)
    ensures Or(v, Shl(x, k)) == v + Shl(x, k)
  {
    if k > 0 {
      OrDisjoint(v / 2, x, k - 1);
    }
  }

  lemma {:induction false} ShlBytes(x: nat, n: nat)
    ensures Shl(x, 8 * n) == Scale(R256, n, x)
  {
    if n > 0 {
      ShlBytes(x, n - 1);
      var k := 8 * n - 8;
      assert Shl(x, k + 1) == 2 * Shl(x, k) && Shl(x, k + 2) == 2 * Shl(x, k + 1);
      assert Shl(x, k + 3) == 2 * Shl(x, k + 2) && Shl(x, k + 4) == 2 * Shl(x, k + 3);
      assert Shl(x, k + 5) == 2 * Shl(x, k + 4) && Shl(x, k + 6) == 2 * Shl(x, k + 5);
      assert Shl(x, k + 7) == 2 * Shl(x, k + 6) && Shl(x, k + 8) == 2 * Shl(x, k + 7);
    }
  }

  // ----- chunks ----------------------------------------------------------------------

  function CharCount(bytes: nat): nat { (bytes * 8 + 6) / 7 }

  function ByteCount(chars: nat): nat { chars * 7 / 8 }

  function Min(a: nat, b: nat): nat { if a < b then a else b }

  /** On the chunk sizes that occur, the two counts invert each other. */
  lemma CountsInvert(bytes: nat)
    requires 1 <= bytes <= 6
    ensures CharCount(bytes) == bytes + 1 && ByteCount(CharCount(bytes)) == bytes
    ensures CharCount(ByteCount(bytes + 1)) == bytes + 1
  {
  }

  /** One character more than bytes always has room, and seven characters fit a word. */
  lemma ChunkBounds(k: nat)
    requires k <= 6
    ensures Pow(R256, k) <= Pow(R122, k + 1) < WORD
    ensures Pow(R122, k) <= Pow(R122, 7) < WORD
  {
    PowersOf(R122);
    PowersOf(R256);
  }

  lemma PowersOf(r: Radix)
    ensures Pow(r, 0) == 1 && Pow(r, 1) == Size(r) && Pow(r, 2) == Times(r, Pow(r, 1))
    ensures Pow(r, 3) == Times(r, Pow(r, 2)) && Pow(r, 4) == Times(r, Pow(r, 3))
    ensures Pow(r, 5) == Times(r, Pow(r, 4)) && Pow(r, 6) == Times(r, Pow(r, 5))
    ensures Pow(r, 7) == Times(r, Pow(r, 6))
  {
  }

  function Letters(ds: seq<nat>): (s: seq<Byte>)
    requires AreDigits(R122, ds)
    ensures |s| == |ds|
    ensures forall i :: 0 <= i < |s| ==> s[i] == Alphabet(ds[i])
  {
    seq(|ds|, i requires 0 <= i < |ds| => Alphabet(ds[i]))
  }

  ghost predicate AllInAlphabet(s: seq<Byte>) {
    forall i :: 0 <= i < |s| ==> InAlphabet(s[i])
  }

  function Indexes(s: seq<Byte>): (ds: seq<nat>)
    ensures |ds| == |s|
    ensures forall i :: 0 <= i < |s| ==> ds[i] == DigitOf(s[i])
  {
    seq(|s|, i requires 0 <= i < |s| => DigitOf(s[i]))
  }

  lemma LettersOfIndexes(s: seq<Byte>)
    requires AllInAlphabet(s)
    ensures AreDigits(R122, Indexes(s)) && Letters(Indexes(s)) == s
  {
  }

  lemma IndexesOfLetters(ds: seq<nat>)
    requires AreDigits(R122, ds)
    ensures AllInAlphabet(Letters(ds)) && Indexes(Letters(ds)) == ds
  {
  }

  function EncodeChunk(bytes: seq<Byte>): (s: seq<Byte>)
    ensures |s| == CharCount(|bytes|)
  {
    var v := Value(R256, bytes);
    DigitsAreDigits(R122, v, CharCount(|bytes|));
    Letters(Digits(R122, v, CharCount(|bytes|)))
  }

  function DecodeChunk(s: seq<Byte>): (bytes: seq<Byte>)
    ensures |bytes| == ByteCount(|s|)
  {
    var v := Value(R122, Indexes(s));
    DigitsAreDigits(R256, v, ByteCount(|s|));
    Digits(R256, v, ByteCount(|s|))
  }

  /** The value written by a chunk of characters is one its bytes can hold. */
  ghost predicate ChunkFits(s: seq<Byte>) {
    Value(R122, Indexes(s)) < Pow(R256, ByteCount(|s|))
  }

  lemma DecodeEncodedChunk(bytes: seq<Byte>)
    requires 1 <= |bytes| <= 6
    ensures AllInAlphabet(EncodeChunk(bytes)) && DecodeChunk(EncodeChunk(bytes)) == bytes
  {
    var v := Value(R256, bytes);
    var n := |bytes| + 1;
    CountsInvert(|bytes|);
    var ds := Digits(R122, v, n);
    assert EncodeChunk(bytes) == Letters(ds) by {
      DigitsAreDigits(R122, v, n);
    }
    IndexesOfLetters(ds);
    assert Value(R122, ds) == v by {
      ValueBound(R256, bytes);
      ChunkBounds(|bytes|);
      ValueOfDigits(R122, v, n);
    }
    DigitsOfValue(R256, bytes);
  }

  lemma EncodeDecodedChunk(s: seq<Byte>)
    requires AllInAlphabet(s) && 2 <= |s| <= 7
    ensures EncodeChunk(DecodeChunk(s)) == s <==> ChunkFits(s)
  {
    var ds := Indexes(s);
    var v := Value(R122, ds);
    var n := |s| - 1;
    var w := Value(R256, DecodeChunk(s));
    CountsInvert(n);
    LettersOfIndexes(s);
    ValueOfDigits(R256, v, n);
    if ChunkFits(s) {
      DigitsOfValue(R122, ds);
    } else {
      ValueBound(R256, DecodeChunk(s));
      ChunkBounds(n);
      ValueOfDigits(R122, w, |s|);
      DigitsAreDigits(R122, w, |s|);
      IndexesOfLetters(Digits(R122, w, |s|));
    }
  }

  // ----- whole texts -----------------------------------------------------------------

  function Encode(data: seq<Byte>): seq<Byte> {
    if data == [] then []
    else
      var k := Min(6, |data|);
      EncodeChunk(data[..k]) + Encode(data[k..])
  }

  /** `out` is what the caller's vector holds; on an error it keeps the chunks decoded
      before the bad one. */
  datatype Decoded = Decoded(ok: bool, out: seq<Byte>)

  function Decode(s: seq<Byte>): Decoded {
    if s == [] then Decoded(true, [])
    else
      var k := Min(7, |s|);
      if (exists i :: 0 <= i < k && !InAlphabet(s[i])) || k == 1 then Decoded(false, [])
      else
        var rest := Decode(s[k..]);
        Decoded(rest.ok, DecodeChunk(s[..k]) + rest.out)
  }

  ghost predicate EveryChunkFits(s: seq<Byte>) {
    s == [] || (ChunkFits(s[..Min(7, |s|)]) && EveryChunkFits(s[Min(7, |s|)..]))
  }

  /** Decoding undoes encoding on every byte string. */
  lemma {:induction false} DecodeEncode(data: seq<Byte>)
    ensures Decode(Encode(data)) == Decoded(true, data)
  {
    hide EncodeChunk, DecodeChunk, InAlphabet;
    if data != [] {
      var k := Min(6, |data|);
      var first, rest := EncodeChunk(data[..k]), Encode(data[k..]);
      var s := Encode(data);
      DecodeEncodedChunk(data[..k]);
      CountsInvert(k);
      DecodeEncode(data[k..]);
      assert k < 6 ==> data[k..] == [];
      assert s[..k + 1] == first && s[k + 1..] == rest;
      assert data == data[..k] + data[k..];
    }
  }

  /** A text decodes exactly when it stays in the alphabet and does not end in a lone
      character. */
  lemma {:induction false} DecodeSucceeds(s: seq<Byte>)
    ensures Decode(s).ok <==> AllInAlphabet(s) && |s| % 7 != 1
  {
    hide DecodeChunk, InAlphabet;
    if s != [] {
      var k := Min(7, |s|);
      DecodeSucceeds(s[k..]);
      assert s == s[..k] + s[k..];
      assert AllInAlphabet(s) <==> AllInAlphabet(s[..k]) && AllInAlphabet(s[k..]) by {
        if AllInAlphabet(s) {
          assert forall i :: 0 <= i < |s| - k ==> s[k..][i] == s[i + k];
        }
      }
    }
  }

  /** Among the texts that decode, encoding undoes decoding exactly on those whose chunks
      all fit their bytes. */
  lemma {:induction false} EncodeDecode(s: seq<Byte>)
    requires Decode(s).ok
    ensures Encode(Decode(s).out) == s <==> EveryChunkFits(s)
  {
    hide EncodeChunk, DecodeChunk, InAlphabet, ChunkFits;
    if s != [] {
      var k := Min(7, |s|);
      var head, tail := s[..k], s[k..];
      EncodeDecode(tail);
      CountsInvert(k - 1);
      assert AllInAlphabet(head);
      EncodeDecodedChunk(head);
      var bytes, rest := DecodeChunk(head), Decode(tail).out;
      assert k < 7 ==> tail == [];
      EncodeJoined(bytes, rest);
      assert s == head + tail;
      var front, back := EncodeChunk(bytes), Encode(rest);
      assert (front + back)[..k] == front && (front + back)[k..] == back;
    }
  }

  /** A first chunk is encoded on its own. */
  lemma EncodeJoined(bytes: seq<Byte>, rest: seq<Byte>)
    requires 0 < |bytes| <= 6 && (|bytes| < 6 ==> rest == [])
    ensures Encode(bytes + rest) == EncodeChunk(bytes) + Encode(rest)
  {
  }

  /** Two different texts for the one byte 0: the second does not fit. */
  lemma DecodeIsNotInjective()
    ensures Decode([Alphabet(0), Alphabet(0)]) == Decode([Alphabet(12), Alphabet(2)]) == Decoded(true, [0])
    ensures !EveryChunkFits([Alphabet(12), Alphabet(2)])
  {
    ShortText(0, 0);
    ShortText(12, 2);
    PowersOf(R256);
    var s := [Alphabet(12), Alphabet(2)];
    assert s[..2] == s;
  }

  lemma ShortText(d: nat, e: nat)
    requires d < 122 && e < 122
    ensures Value(R122, Indexes([Alphabet(d), Alphabet(e)])) == d + 122 * e
    ensures Decode([Alphabet(d), Alphabet(e)]) == Decoded(true, [(d + 122 * e) % 256])
  {
    var s := [Alphabet(d), Alphabet(e)];
    DigitOfAlphabet(d);
    DigitOfAlphabet(e);
    var ds := Indexes(s);
    assert ds == [d, e] && ds[1..] == [e] && ds[1..][1..] == [];
    assert Value(R122, [e]) == e;
    var v := d + 122 * e;
    assert s[..2] == s && s[2..] == [];
    assert Digits(R256, v, 1) == [v % 256] + Digits(R256, v / 256, 0);
  }

  /** n bytes take n + ceil(n / 6) characters; n characters give n - ceil(n / 7) bytes. */
  lemma {:induction false} EncodedLength(data: seq<Byte>)
    ensures |Encode(data)| == |data| + (|data| + 5) / 6
  {
    if data != [] {
      EncodedLength(data[Min(6, |data|)..]);
    }
  }

  lemma {:induction false} DecodedLength(s: seq<Byte>)
    requires Decode(s).ok
    ensures |Decode(s).out| == |s| - (|s| + 6) / 7
  {
    hide InAlphabet;
    if s != [] {
      DecodedLength(s[Min(7, |s|)..]);
    }
  }

  // ----- the loops -------------------------------------------------------------------

  lemma ProductBelow(c: nat, m: nat, p: nat)
    requires c <= m
    ensures c * p <= m * p
  {
  }

  lemma NoWrap(x: nat)
    requires x < WORD
    ensures x % WORD == x
  {
  }

  /** Or-ing in the next byte neither truncates nor disturbs the bytes below it. */
  lemma PackByte(chunk: seq<Byte>, n: nat, val: nat)
    requires n < |chunk| <= 6
    requires val < Pow(R256, n)
    requires Value(R256, chunk) == val + Scale(R256, n, Value(R256, chunk[n..]))
    ensures Shl(chunk[n], 8 * n) % WORD == Shl(chunk[n], 8 * n)
    ensures Or(val, Shl(chunk[n], 8 * n)) < Pow(R256, n + 1)
    ensures Value(R256, chunk)
         == Or(val, Shl(chunk[n], 8 * n)) + Scale(R256, n + 1, Value(R256, chunk[n + 1..]))
  {
    var p := Pow(R256, n);
    var c: nat := chunk[n];
    assert Or(val, Shl(c, 8 * n)) == val + c * p && Shl(c, 8 * n) == c * p by {
      ShlBytes(1, n);
      ShlBytes(c, n);
      OrDisjoint(val, c, 8 * n);
      ScaleIsProduct(R256, n, c);
    }
    AccumulateDigit(R256, chunk, n, val);
    ProductBelow(c, 255, p);
    assert Pow(R256, n + 1) == 256 * p;
    assert Pow(R256, n + 1) < WORD by {
      PowersOf(R256);
    }
    NoWrap(Shl(c, 8 * n));
  }

  /** Adding in the next digit does not truncate, and neither does the next multiplier; the
      digits after it may still be markers. */
  lemma TakeDigit(ds: seq<nat>, n: nat, val: nat, mult: nat, product: nat)
    requires n < |ds| <= 7 && ds[n] < 122
    requires mult == Pow(R122, n) && val < mult && product == ds[n] * mult
    requires Value(R122, ds) == val + Scale(R122, n, Value(R122, ds[n..]))
    ensures product % WORD == product && (val + product) % WORD == val + product
    ensures mult * 122 % WORD == mult * 122 == Pow(R122, n + 1)
    ensures val + product < mult * 122
    ensures Value(R122, ds) == val + product + Scale(R122, n + 1, Value(R122, ds[n + 1..]))
  {
    AccumulateDigit(R122, ds, n, val);
    ProductBelow(ds[n], 121, mult);
    assert Pow(R122, n + 1) == 122 * mult;
    assert Pow(R122, n + 1) < WORD by {
      PowersOf(R122);
    }
    NoWrap(product);
    NoWrap(val + product);
    NoWrap(mult * 122);
  }

  lemma ScaleByZeroPlaces(r: Radix, x: nat)
    ensures Pow(r, 0) == 1 && Scale(r, 0, x) == x
  {
  }

  /** The packing loop of one chunk: up to six bytes into a 64-bit word. */
  method PackChunk(data: seq<Byte>, start: nat) returns (val: nat, i: nat)
    requires start < |data|
    ensures i == start + Min(6, |data| - start)
    ensures val == Value(R256, data[start..i])
  {
    hide Or, Shl, Scale;
    ghost var chunk := data[start..start + Min(6, |data| - start)];
    val, i := 0, start;
    var bytes := 0;
    assert chunk[0..] == chunk;
    ScaleByZeroPlaces(R256, Value(R256, chunk));
    while bytes < 6 && i < |data|
      invariant bytes <= |chunk| && i == start + bytes
      invariant val < Pow(R256, bytes)
      invariant Value(R256, chunk) == val + Scale(R256, bytes, Value(R256, chunk[bytes..]))
    {
      PackByte(chunk, bytes, val);
      val := Or(val, Shl(data[i], 8 * bytes) % WORD);
      bytes, i := bytes + 1, i + 1;
    }
    assert chunk[bytes..] == [];
    ScaleZero(R256, bytes);
  }

  /** base122_encode. */
  method EncodeLoop(data: seq<Byte>) returns (out: seq<Byte>)
    ensures out == Encode(data)
  {
    hide EncodeChunk, Letters, Digits, Value, AreDigits;
    out := [];
    var i := 0;
    while i < |data|
      invariant 0 <= i <= |data|
      invariant Encode(data) == out + Encode(data[i..])
    {
      var val, j := PackChunk(data, i);
      var chars := ((j - i) * 8 + 6) / 7;
      var letters := EmitChars(val, chars);
      ChunkText(data[i..j], val, chars);
      SplitEncode(data, i, j);
      assert out + (letters + Encode(data[j..])) == (out + letters) + Encode(data[j..]);
      out, i := out + letters, j;
    }
    assert data[i..] == [];
  }

  lemma ChunkText(bytes: seq<Byte>, word: nat, chars: nat)
    requires word == Value(R256, bytes) && chars == CharCount(|bytes|)
    ensures AreDigits(R122, Digits(R122, word, chars))
    ensures EncodeChunk(bytes) == Letters(Digits(R122, word, chars))
  {
    DigitsAreDigits(R122, word, chars);
  }

  lemma ChunkBytes(s: seq<Byte>, word: nat, count: nat)
    requires word == Value(R122, Indexes(s)) && count == ByteCount(|s|)
    ensures DecodeChunk(s) == Digits(R256, word, count)
  {
  }

  lemma SplitEncode(data: seq<Byte>, i: nat, j: nat)
    requires i < |data| && j == i + Min(6, |data| - i)
    ensures Encode(data[i..]) == EncodeChunk(data[i..j]) + Encode(data[j..])
  {
    var k := j - i;
    assert data[i..][..k] == data[i..j] && data[i..][k..] == data[j..];
  }

  /** The emitting loop of one chunk: the base-122 digits of the word, low digit first. */
  method EmitChars(word: nat, chars: nat) returns (s: seq<Byte>)
    ensures AreDigits(R122, Digits(R122, word, chars))
    ensures s == Letters(Digits(R122, word, chars))
  {
    ghost var ds := Digits(R122, word, chars);
    DigitsAreDigits(R122, word, chars);
    s := [];
    var val := word;
    for c := 0 to chars
      invariant s == Letters(ds)[..c]
      invariant ds[c..] == Digits(R122, val, chars - c)
    {
      assert ds[c] == ds[c..][0] && ds[c + 1..] == ds[c..][1..];
      s := s + [Alphabet(val % 122)];
      val := val / 122;
    }
  }

  /** The reading loop of one chunk: up to seven digits into a 64-bit word. */
  method ReadChunk(table: array<Byte>, s: seq<Byte>, start: nat) returns (ok: bool, val: nat, i: nat)
    requires start < |s| && table.Length == 256
    requires forall c: Byte :: table[c] == DigitOf(c)
    ensures ok <==> AllInAlphabet(s[start..start + Min(7, |s| - start)])
    ensures ok ==> i == start + Min(7, |s| - start)
    ensures ok ==> val == Value(R122, Indexes(s[start..i]))
  {
    hide Alphabet, InAlphabet, Scale;
    ghost var chunk := s[start..start + Min(7, |s| - start)];
    ghost var ds := Indexes(chunk);
    ok, val, i := true, 0, start;
    var chars := 0;
    var mult: nat := 1;
    assert ds[0..] == ds;
    ScaleByZeroPlaces(R122, Value(R122, ds));
    while chars < 7 && i < |s|
      invariant chars <= |chunk| && i == start + chars
      invariant forall j :: 0 <= j < chars ==> InAlphabet(chunk[j])
      invariant val < mult == Pow(R122, chars)
      invariant Value(R122, ds) == val + Scale(R122, chars, Value(R122, ds[chars..]))
    {
      var v := table[s[i]];
      if v == INVALID {
        assert !InAlphabet(chunk[chars]);
        ok := false;
        return;
      }
      TakeDigit(ds, chars, val, mult, v * mult);
      val := (val + v * mult % WORD) % WORD;
      mult := mult * 122 % WORD;
      chars, i := chars + 1, i + 1;
    }
    assert ds[chars..] == [];
    ScaleZero(R122, chars);
  }

  /** The writing loop of one chunk: the low bytes of the word. */
  method EmitBytes(word: nat, count: nat) returns (bytes: seq<Byte>)
    ensures bytes == Digits(R256, word, count)
  {
    ghost var ds := Digits(R256, word, count);
    bytes := [];
    var val := word;
    for b := 0 to count
      invariant bytes == ds[..b]
      invariant ds[b..] == Digits(R256, val, count - b)
    {
      assert ds[b] == ds[b..][0] && ds[b + 1..] == ds[b..][1..];
      bytes := bytes + [val % 256];
      val := val / 256;
    }
  }

  /** base122_decode: status 0 on success and 1 on a bad character or a lone tail. */
  method DecodeLoop(s: seq<Byte>) returns (status: int, out: seq<Byte>)
    ensures out == Decode(s).out
    ensures status == if Decode(s).ok then 0 else 1
  {
    hide DecodeChunk, DigitOf, InAlphabet, AllInAlphabet, Decode, Digits, Value;
    DecodeEmpty();
    var table := BuildDecodeMap();
    status, out := 0, [];
    var i := 0;
    while i < |s|
      invariant 0 <= i <= |s|
      invariant forall c: Byte :: table[c] == DigitOf(c)
      invariant Decode(s) == Decoded(Decode(s[i..]).ok, out + Decode(s[i..]).out)
    {
      SplitDecode(s, i);
      var ok, val, j := ReadChunk(table, s, i);
      if !ok || j - i == 1 {
        return 1, out;
      }
      ChunkBytes(s[i..j], val, (j - i) * 7 / 8);
      var bytes := EmitBytes(val, (j - i) * 7 / 8);
      assert out + (bytes + Decode(s[j..]).out) == (out + bytes) + Decode(s[j..]).out;
      out, i := out + bytes, j;
    }
    assert s[i..] == [];
  }

  lemma DecodeEmpty()
    ensures Decode([]) == Decoded(true, [])
  {
  }

  lemma SplitDecode(s: seq<Byte>, i: nat)
    requires i < |s|
    ensures var j := i + Min(7, |s| - i);
      Decode(s[i..]) == if !AllInAlphabet(s[i..j]) || j - i == 1 then Decoded(false, [])
                        else Decoded(Decode(s[j..]).ok, DecodeChunk(s[i..j]) + Decode(s[j..]).out)
  {
    var k := Min(7, |s| - i);
    assert s[i..][..k] == s[i..i + k] && s[i..][k..] == s[i + k..];
  }
}
