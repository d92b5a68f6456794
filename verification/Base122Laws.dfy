/** What the base-122 text of a byte string is, written out: its characters, the weights of
    bytes and digits, and chunk after chunk (src/base122.cc). */
module Base122Laws {
  import opened Positional
  import opened Base122

  // ----- the alphabet -------------------------------------------------------------------------

  /** The alphabet is NUL, the visible ASCII characters but the quotes and the backslash, and the
      thirty bytes from 0xA1 on. */
  lemma AlphabetExactly(c: Byte)
    ensures InAlphabet(c) <==>
      c == 0 || ('!' as int <= c <= '~' as int && c !in {'"' as int, '\'' as int, '\\' as int}) || 0xA1 <= c <= 0xBE
  {
    if c == 0 || ('!' as int <= c <= '~' as int && c !in {34, 39, 92}) || 0xA1 <= c <= 0xBE {
      var d: nat := if c == 0 then 121 else if c == 33 then 0 else if c < 39 then c - 34 else if c < 92 then c - 35
                    else if c <= 126 then c - 36 else c - 70;
      assert d < 122 && Alphabet(d) == c;
    }
  }

  /** It goes up, but for the NUL at its end. */
  lemma AlphabetInOrder(d: nat, e: nat)
    requires d < e < 122
    ensures if e < 121 then Alphabet(d) < Alphabet(e) else Alphabet(e) == 0
  {
  }

  // ----- weights --------------------------------------------------------------------------------

  function At(ds: seq<nat>, i: nat): nat { if i < |ds| then ds[i] else 0 }

  /** Up to seven bytes as one number, the first the lowest. */
  function BytesWeigh(bs: seq<nat>): nat {
    At(bs, 0) + 0x100 * At(bs, 1) + 0x1_0000 * At(bs, 2) + 0x100_0000 * At(bs, 3) + 0x1_0000_0000 * At(bs, 4)
    + 0x100_0000_0000 * At(bs, 5) + 0x1_0000_0000_0000 * At(bs, 6)
  }

  /** Up to seven digits in base 122 as one number, the first the lowest. */
  function DigitsWeigh(ds: seq<nat>): nat {
    At(ds, 0) + 122 * At(ds, 1) + 14_884 * At(ds, 2) + 1_815_848 * At(ds, 3) + 221_533_456 * At(ds, 4)
    + 27_027_081_632 * At(ds, 5) + 3_297_303_959_104 * At(ds, 6)
  }

  /** One place up in both bases. */
  lemma WeighStep(ds: seq<nat>)
    requires 0 < |ds| <= 7
    ensures BytesWeigh(ds) == ds[0] + 256 * BytesWeigh(ds[1..])
    ensures DigitsWeigh(ds) == ds[0] + 122 * DigitsWeigh(ds[1..])
  {
    var tail := ds[1..];
    assert At(tail, 0) == At(ds, 1) && At(tail, 1) == At(ds, 2) && At(tail, 2) == At(ds, 3);
    assert At(tail, 3) == At(ds, 4) && At(tail, 4) == At(ds, 5) && At(tail, 5) == At(ds, 6) && At(tail, 6) == 0;
  }

  lemma {:induction false} ValueWeighs(ds: seq<nat>)
    requires |ds| <= 7
    ensures Value(R256, ds) == BytesWeigh(ds) && Value(R122, ds) == DigitsWeigh(ds)
  {
    if ds != [] {
      WeighStep(ds);
      ValueWeighs(ds[1..]);
    }
  }

  /** What the `n` low digits of `v` leave over stands as one more digit. */
  lemma {:induction false} DigitsAndRest(r: Radix, v: nat, n: nat) returns (rest: nat)
    ensures Value(r, Digits(r, v, n) + [rest]) == v
  {
    if n == 0 {
      rest := v;
      assert [v][1..] == [] && Digits(r, v, 0) + [v] == [v];
    } else {
      rest := DigitsAndRest(r, Quot(r, v), n - 1);
      var tail := Digits(r, Quot(r, v), n - 1) + [rest];
      assert Digits(r, v, n) + [rest] == [Rem(r, v)] + tail;
      assert ([Rem(r, v)] + tail)[1..] == tail;
    }
  }

  // ----- chunk after chunk ------------------------------------------------------------------------

  /** The characters of digits. */
  ghost predicate Spells(cs: seq<Byte>, ds: seq<nat>) {
    && |cs| == |ds|
    && forall i :: 0 <= i < |ds| ==> ds[i] < 122 && Alphabet(ds[i]) == cs[i]
  }

  function Upto(a: nat, n: nat): nat { if a < n then a else n }

  lemma ChunkSpelled(bytes: seq<Byte>) returns (ds: seq<nat>)
    requires 1 <= |bytes| <= 6
    ensures |ds| == |bytes| + 1 && Spells(EncodeChunk(bytes), ds) && DigitsWeigh(ds) == BytesWeigh(bytes)
  {
    hide Value, Digits, BytesWeigh, DigitsWeigh, Alphabet;
    var v := Value(R256, bytes);
    ds := Digits(R122, v, |bytes| + 1);
    CountsInvert(|bytes|);
    DigitsAreDigits(R122, v, |bytes| + 1);
    ValueBound(R256, bytes);
    ChunkBounds(|bytes|);
    ValueOfDigits(R122, v, |bytes| + 1);
    ValueWeighs(ds);
    ValueWeighs(bytes);
  }

  /** The text of the first chunk, then that of the others. */
  lemma FirstChunk(data: seq<Byte>)
    requires data != []
    ensures var n, text := Min(6, |data|), Encode(data);
      && n + 1 <= |text| && text[..n + 1] == EncodeChunk(data[..n]) && text[n + 1..] == Encode(data[n..])
    ensures |data| <= 6 ==> |Encode(data)| == |data| + 1
  {
    var n := Min(6, |data|);
    CountsInvert(n);
    assert n < 6 ==> data[n..] == [];
    assert Encode([]) == [];
  }

  /** Bytes 6k to 6k+5, or those up to the end, weigh as much as characters 7k to 7k+6 of the text,
      which are one more than they. */
  lemma {:induction false} EncodesChunks(data: seq<Byte>, k: nat) returns (ds: seq<nat>)
    requires 6 * k < |data|
    ensures var bytes, text := data[6 * k..Upto(6 * k + 6, |data|)], Encode(data);
      && |ds| == |bytes| + 1 && 7 * k + |ds| <= |text| && (|bytes| < 6 ==> 7 * k + |ds| == |text|)
      && Spells(text[7 * k..7 * k + |ds|], ds) && DigitsWeigh(ds) == BytesWeigh(bytes)
    decreases k
  {
    hide Encode, EncodeChunk, BytesWeigh, DigitsWeigh, Spells;
    var n, text := Min(6, |data|), Encode(data);
    FirstChunk(data);
    if k == 0 {
      ds := ChunkSpelled(data[..n]);
      assert text[7 * k..7 * k + |ds|] == text[..n + 1];
    } else {
      ds := EncodesChunks(data[6..], k - 1);
      var m := Upto(6 * k + 6, |data|);
      assert data[6..][6 * (k - 1)..m - 6] == data[6 * k..m];
      var p, rest := 7 * (k - 1), text[7..];
      assert n == 6 && rest == Encode(data[6..]);
      assert rest[p..p + |ds|] == text[7 + p..7 + p + |ds|];
    }
  }

  lemma ChunkRead(cs: seq<Byte>) returns (ds: seq<nat>, rest: nat)
    requires AllInAlphabet(cs) && 2 <= |cs| <= 7
    ensures Spells(cs, ds) && |DecodeChunk(cs)| == |cs| - 1
    ensures DigitsWeigh(ds) == BytesWeigh(DecodeChunk(cs) + [rest])
  {
    hide Value, Digits, BytesWeigh, DigitsWeigh, Alphabet;
    ds := Indexes(cs);
    LettersOfIndexes(cs);
    CountsInvert(|cs| - 1);
    rest := DigitsAndRest(R256, Value(R122, ds), |cs| - 1);
    ValueWeighs(ds);
    ValueWeighs(DecodeChunk(cs) + [rest]);
  }

  /** A chunk that can be read: characters of the alphabet, and more than one. */
  ghost predicate Readable(s: seq<Byte>, k: nat) {
    7 * k + 1 < |s| && AllInAlphabet(s[7 * k..Upto(7 * k + 7, |s|)])
  }

  ghost predicate ReadableTo(s: seq<Byte>, k: nat) {
    forall i :: 0 <= i <= k ==> Readable(s, i)
  }

  /** The bytes of the first chunk, then those of the others. */
  lemma FirstRead(s: seq<Byte>)
    requires s != []
    ensures var n := Min(7, |s|);
      Decode(s) == if Readable(s, 0) then Decoded(Decode(s[n..]).ok, DecodeChunk(s[..n]) + Decode(s[n..]).out)
                   else Decoded(false, [])
  {
    hide InAlphabet, DecodeChunk;
    var n := Min(7, |s|);
    assert s[0..Upto(7, |s|)] == s[..n];
    assert AllInAlphabet(s[..n]) <==> !exists i :: 0 <= i < n && !InAlphabet(s[i]) by {
      assert forall i :: 0 <= i < n ==> s[..n][i] == s[i];
    }
  }

  lemma ReadableBehind(s: seq<Byte>, k: nat)
    requires |s| >= 7
    ensures Readable(s, k + 1) <==> Readable(s[7..], k)
  {
    if 7 * k + 8 < |s| {
      var m := Upto(7 * k + 14, |s|);
      assert s[7..][7 * k..m - 7] == s[7 * k + 7..m];
    }
  }

  lemma Behind<X>(s: seq<X>, a: nat, lo: nat, hi: nat)
    requires lo <= hi && a + hi <= |s|
    ensures s[a..][lo..hi] == s[a + lo..a + hi]
  {
  }

  /** The characters of a chunk weigh as much as its bytes with `rest` above them. */
  ghost predicate ReadAs(cs: seq<Byte>, bytes: seq<Byte>, ds: seq<nat>, rest: nat) {
    |bytes| + 1 == |cs| && Spells(cs, ds) && DigitsWeigh(ds) == BytesWeigh(bytes + [rest])
  }

  /** Chunk `k` of `s` is read as the bytes of `out` from 6k on. */
  ghost predicate ReadAt(s: seq<Byte>, out: seq<Byte>, k: nat, ds: seq<nat>, rest: nat)
    requires 7 * k + 1 < |s|
  {
    var m := Upto(7 * k + 7, |s|);
    && m - k - 1 <= |out| && (m < 7 * k + 7 ==> m - k - 1 == |out|)
    && ReadAs(s[7 * k..m], out[6 * k..m - k - 1], ds, rest)
  }

  lemma ReadBehind(s: seq<Byte>, out: seq<Byte>, k: nat, ds: seq<nat>, rest: nat)
    requires k > 0 && 7 * k + 1 < |s| && |out| >= 6 && ReadAt(s[7..], out[6..], k - 1, ds, rest)
    ensures ReadAt(s, out, k, ds, rest)
  {
    hide ReadAs;
    var m := Upto(7 * k + 7, |s|);
    assert Upto(7 * (k - 1) + 7, |s[7..]|) == m - 7;
    Behind(s, 7, 7 * (k - 1), m - 7);
    Behind(out, 6, 6 * (k - 1), m - 7 - k);
  }

  /** Characters 7k to 7k+6, or those up to the end, are read as the bytes from 6k on; so much is
      read also of a text that does not decode, as long as its chunks up to this one can be read. */
  lemma {:induction false} DecodesChunks(s: seq<Byte>, k: nat) returns (ds: seq<nat>, rest: nat)
    requires 7 * k + 1 < |s| && ReadableTo(s, k)
    ensures ReadAt(s, Decode(s).out, k, ds, rest)
    decreases k
  {
    assert 7 * k + 1 < |s|;
    hide *;
    if k == 0 {
      ds, rest := FirstReadAs(s);
    } else {
      OthersReadable(s, k);
      ds, rest := DecodesChunks(s[7..], k - 1);
      ReadBehind(s, Decode(s).out, k, ds, rest);
    }
  }

  lemma OthersReadable(s: seq<Byte>, k: nat)
    requires k > 0 && 7 * k + 1 < |s| && ReadableTo(s, k)
    ensures |s| >= 7 && |Decode(s).out| >= 6 && Decode(s).out[6..] == Decode(s[7..]).out && ReadableTo(s[7..], k - 1)
  {
    hide Decode, DecodeChunk, Readable;
    assert Readable(s, 0);
    FirstRead(s);
    forall i | 0 <= i < k ensures Readable(s[7..], i) {
      assert Readable(s, i + 1);
      ReadableBehind(s, i);
    }
  }

  lemma FirstReadAs(s: seq<Byte>) returns (ds: seq<nat>, rest: nat)
    requires 1 < |s| && ReadableTo(s, 0)
    ensures ReadAt(s, Decode(s).out, 0, ds, rest)
  {
    assert Readable(s, 0);
    hide Decode, DecodeChunk, BytesWeigh, DigitsWeigh, Spells;
    var n := Min(7, |s|);
    FirstRead(s);
    assert s[0..Upto(7, |s|)] == s[..n];
    ds, rest := ChunkRead(s[..n]);
    assert Decode(s).out[0..n - 1] == DecodeChunk(s[..n]);
    DecodeNothing();
    assert n < 7 ==> s[n..] == [];
  }

  lemma DecodeNothing()
    ensures Decode([]) == Decoded(true, [])
  {
  }

  lemma ReadableLong(s: seq<Byte>)
    requires Readable(s, 0)
    ensures |s| > 1
  {
  }

  /** Reading stops in front of the first chunk that cannot be read: a text fails exactly when it
      has one, and then `k` chunks have been read, six bytes each. */
  lemma {:induction false} FailsAtChunk(s: seq<Byte>) returns (k: nat)
    ensures forall i :: 0 <= i < k ==> Readable(s, i)
    ensures if Decode(s).ok then 7 * k >= |s| else 7 * k < |s| && !Readable(s, k) && |Decode(s).out| == 6 * k
    decreases |s|
  {
    hide Decode, DecodeChunk, Readable;
    k := 0;
    DecodeNothing();
    if s != [] {
      FirstRead(s);
      var n := Min(7, |s|);
      if Readable(s, 0) {
        ReadableLong(s);
        CountsInvert(n - 1);
        k := 1;
        assert n < 7 ==> s[n..] == [];
        if n == 7 {
          var rest := FailsAtChunk(s[n..]);
          k := rest + 1;
          forall i | 0 <= i < k ensures Readable(s, i) {
            if i > 0 {
              ReadableBehind(s, i - 1);
            }
          }
          ReadableBehind(s, rest);
        }
      }
    }
  }
}
