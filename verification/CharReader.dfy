/** The character cursor of the text parser: where its skipping functions leave it
    (src/ascii-parser.cc, SkipWhitespace, SkipWhitespaceAndNewline, Expect, MaybeNone).  The
    input ends behind its last character or at a NUL. */
module CharReader {
  import opened Options

  const NUL := '\0'

  predicate Ended(s: string, p: nat) {
    p >= |s| || s[p] == NUL
  }

  predicate IsSpace(c: char) { c == ' ' || c == '\t' || c == '\U{000C}' }

  /** Characters that separate entries: a semicolon counts as a line break. */
  predicate IsGap(c: char) { IsSpace(c) || c == ';' || c == '\n' || c == '\r' }

  /** The first position from `p` on that holds no space, or where the input ends. */
  function SpaceEnd(s: string, p: nat): (q: nat)
    requires p <= |s|
    ensures p <= q <= |s| && (forall i :: p <= i < q ==> IsSpace(s[i])) && (q < |s| ==> !IsSpace(s[q]))
    decreases |s| - p
  {
    if !Ended(s, p) && IsSpace(s[p]) then SpaceEnd(s, p + 1) else p
  }

  /** SkipWhitespace: at the end of the input it steps back one character, even over one that
      is no space. */
  function SkipSpace(s: string, p: nat): (q: Option<nat>)
    requires p <= |s|
    ensures q.Some? ==> q.value < |s| && p <= q.value + 1
    ensures !Ended(s, p) ==> q.Some? && p <= q.value
  {
    var q := SpaceEnd(s, p);
    if !Ended(s, q) then Some(q) else if q == 0 then None else Some(q - 1)
  }

  /** SkipWhitespaceAndNewline does not step back. */
  function GapEnd(s: string, p: nat): (q: nat)
    requires p <= |s|
    ensures p <= q <= |s| && (forall i :: p <= i < q ==> IsGap(s[i])) && (q < |s| ==> !IsGap(s[q]))
    decreases |s| - p
  {
    if !Ended(s, p) && IsGap(s[p]) then GapEnd(s, p + 1) else p
  }

  function Expect(s: string, p: nat, c: char): (q: Option<nat>)
    requires p <= |s|
    ensures q.Some? ==> p <= q.value <= |s| && q.value > 0 && s[q.value - 1] == c && (!Ended(s, p) ==> p < q.value)
  {
    match SkipSpace(s, p)
    case Some(q) => if s[q] == c then Some(q + 1) else None
    case None => None
  }

  predicate NoneAt(s: string, p: nat) {
    p + 4 <= |s| && s[p..p + 4] == "None"
  }

  // ----- where the cursor stops, written out ------------------------------------------------------

  /** SkipWhitespace stops at the first character that is no blank, tab or form feed; when that is
      the end of the input, one character before it, and at the very start nowhere. */
  lemma {:induction false} SpaceSkipped(s: string, p: nat) returns (e: nat)
    requires p <= |s|
    ensures p <= e <= |s| && forall i :: p <= i < e ==> s[i] in [' ', '\t', '\U{000C}']
    ensures e < |s| ==> s[e] !in [' ', '\t', '\U{000C}']
    ensures SkipSpace(s, p) == if e < |s| && s[e] != '\0' then Some(e) else if e > 0 then Some(e - 1) else None
  {
    e := SpaceEnd(s, p);
  }

  /** SkipWhitespaceAndNewline stops at the first character that is no blank, tab, form feed,
      semicolon, line feed or carriage return. */
  lemma {:induction false} GapSkipped(s: string, p: nat)
    requires p <= |s|
    ensures var e := GapEnd(s, p);
      && p <= e <= |s| && (forall i :: p <= i < e ==> s[i] in [' ', '\t', '\U{000C}', ';', '\n', '\r'])
      && (e < |s| ==> s[e] !in [' ', '\t', '\U{000C}', ';', '\n', '\r'])
  {
  }

  // ----- on printed text the cursor does not step back ------------------------------------------

  lemma SkipSpaceHere(s: string, p: nat)
    requires p < |s| && s[p] != NUL && !IsSpace(s[p])
    ensures SkipSpace(s, p) == Some(p)
  {
  }

  class Cursor {
    const text: string
    var pos: nat

    ghost predicate Valid()
      reads this`pos
    {
      pos <= |text|
    }

    constructor (text: string)
      ensures Valid() && this.text == text && pos == 0
    {
      this.text, pos := text, 0;
    }

    method SkipWhitespace() returns (ok: bool)
      requires Valid()
      modifies this`pos
      ensures Valid()
      ensures ok == SkipSpace(text, old(pos)).Some?
      ensures ok ==> pos == SkipSpace(text, old(pos)).value
    {
      while pos < |text| && text[pos] != NUL
        invariant Valid() && SpaceEnd(text, pos) == SpaceEnd(text, old(pos))
        decreases |text| - pos
      {
        var c := text[pos];
        pos := pos + 1;
        if !IsSpace(c) {
          pos := pos - 1;
          return true;
        }
      }
      ok := pos > 0;
      if ok {
        pos := pos - 1;
      }
    }

    /** A carriage return takes a following line feed with it. */
    method SkipWhitespaceAndNewline()
      requires Valid()
      modifies this`pos
      ensures Valid() && pos == GapEnd(text, old(pos))
    {
      while pos < |text| && text[pos] != NUL
        invariant Valid() && GapEnd(text, pos) == GapEnd(text, old(pos))
        decreases |text| - pos
      {
        var c := text[pos];
        pos := pos + 1;
        if c == '\r' {
          if pos < |text| - 1 {
            var d := text[pos];
            pos := pos + 1;
            if d != '\n' {
              pos := pos - 1;
            }
          }
        } else if !IsGap(c) {
          pos := pos - 1;
          return;
        }
      }
    }

    method ExpectChar(c: char) returns (ok: bool)
      requires Valid()
      modifies this`pos
      ensures Valid()
      ensures ok == Expect(text, old(pos), c).Some?
      ensures ok ==> pos == Expect(text, old(pos), c).value
    {
      ok := SkipWhitespace();
      if !ok { return; }
      ok := text[pos] == c;
      pos := pos + 1;
    }

    method MaybeNone() returns (ok: bool)
      requires Valid()
      modifies this`pos
      ensures Valid()
      ensures ok == NoneAt(text, old(pos)) && pos == if ok then old(pos) + 4 else old(pos)
    {
      ok := pos + 4 <= |text| && text[pos..pos + 4] == "None";
      if ok {
        pos := pos + 4;
      }
    }
  }
}
