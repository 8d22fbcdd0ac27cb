/** What Display/FontBMF.cpp refuses: a file that does not begin with the three letters, and a character that is there
    already. And what it reads at the end of a file: nothing, so that every field keeps its value.
*/
module FontRefusals {
  import opened FileMemory
  import opened FontFormat
  import opened FontRoundTrip

  /** The header is accepted exactly if the file begins with "BMF"; a file that agrees with it as far as it goes, and is
      shorter, makes the loader look at letters that were never read.
   */
  lemma HeaderExactly(data: seq<Byte>)
    ensures Header(data, 0) == Some(true) <==> |data| >= 3 && data[0] == 66 && data[1] == 77 && data[2] == 70
    ensures Header(data, 0) == None <==> |data| < 3 && data == [66, 77, 70][..|data|]
  {
    if |data| < 3 && data == [66, 77, 70][..|data|] {
      assert forall i :: 0 <= i < |data| ==> data[i] == [66, 77, 70][i];
    }
  }

  /** A font is loaded only from a file with the header. */
  lemma LoadedHasHeader(font: Font, data: seq<Byte>, found: seq<Byte> -> bool)
    requires Load(font, data, found).Loaded?
    ensures |data| >= 3 && data[0] == 66 && data[1] == 77 && data[2] == 70
  {
    HeaderExactly(data);
  }

  /** No character has the id of an earlier one, or of one that the font has. */
  ghost predicate NewIds(font: Font, chars: seq<Char>) {
    && (forall i :: 0 <= i < |chars| ==> chars[i].id !in font.chars)
    && forall i, j :: 0 <= i < j < |chars| ==> chars[i].id != chars[j].id
  }

  lemma NewIdsStep(font: Font, chars: seq<Char>)
    requires chars != [] && chars[0].id !in font.chars
    ensures NewIds(font, chars) <==> NewIds(font.(chars := font.chars[chars[0].id := chars[0]]), chars[1..])
  {
    var font' := font.(chars := font.chars[chars[0].id := chars[0]]);
    if NewIds(font', chars[1..]) {
      forall i, j | 0 <= i < j < |chars|
        ensures chars[i].id != chars[j].id
      {
        assert chars[1..][j - 1].id !in font'.chars;
        if i > 0 { assert chars[1..][i - 1].id != chars[1..][j - 1].id; }
      }
      forall i | 0 <= i < |chars|
        ensures chars[i].id !in font.chars
      {
        if i > 0 { assert chars[1..][i - 1].id !in font'.chars; }
      }
    }
  }

  /** The characters that are written in a file are accepted exactly if all their ids are new. */
  lemma {:induction false} CharsExactly(font: Font, chars: seq<Char>, tail: seq<Byte>)
    requires forall i :: 0 <= i < |chars| ==> CharOk(chars[i])
    ensures var r := ReadCharsFrom(font, |chars|, PutChars(chars, tail)); r.Reader? && (r.ok <==> NewIds(font, chars))
    decreases |chars|
  {
    hide ReadU, ReadChar, PutChar, Put;
    if chars != [] {
      var c := chars[0];
      var left := PutChar(c, PutChars(chars[1..], tail));
      PutIs(c.id, 4, left);
      Read32(c.id, left, 0);
      if c.id !in font.chars {
        CharBack(c, PutChars(chars[1..], tail));
        CharsExactly(font.(chars := font.chars[c.id := c]), chars[1..], tail);
        NewIdsStep(font, chars);
      }
    }
  }

  // ---------- The end of the file ----------

  /** A read gets the bytes that are left; the others stay as they were. */
  lemma ShortRead(rest: seq<Byte>, k: nat, before: nat)
    ensures var n := Least(k, |rest|);
            && ToLE(ReadU(rest, k, before).0, k) == rest[..n] + ToLE(before, k)[n..]
            && ReadU(rest, k, before).1 == rest[n..]
  {
    ToFrom(rest[..Least(k, |rest|)] + ToLE(before, k)[Least(k, |rest|)..]);
  }

  lemma {:induction false} ToFrom(b: seq<Byte>)
    ensures ToLE(FromLE(b), |b|) == b
  {
    if b != [] {
      ToFrom(b[1..]);
      assert b == [b[0]] + b[1..];
    }
  }

  lemma NothingRead(k: nat, before: nat)
    requires before < Pow256(k)
    ensures ReadU([], k, before) == (before, [])
  {
    FromTo(before, k);
    assert [] + ToLE(before, k)[0..] == ToLE(before, k);
  }

  lemma NoShortRead(before: int)
    requires ShortSized(before)
    ensures ReadS([], before) == (before, [])
  {
    Powers();
    NothingRead(2, before % 65536);
  }

  /** The loop over the blocks ends when the byte after the type would be behind the file: a single last byte is
      ignored, and so is an empty rest.
   */
  lemma LastByteIgnored(font: Font, typ: nat, size: nat, rest: seq<Byte>)
    requires |rest| <= 1
    ensures Blocks(font, typ, size, rest) == Loaded(font)
  {
  }

  /** At the end of the file a common block is accepted, and leaves all fields as they were. */
  lemma EndKeepsCommon(font: Font, size: nat)
    requires CommonOk(font.common)
    ensures ReadCommon(font, size, []) == Reader(font, [], true)
  {
    hide ReadU, ToLE;
    Powers();
    var c := font.common;
    NothingRead(2, c.lineHeight);
    NothingRead(2, c.base);
    NothingRead(2, c.scaleW);
    NothingRead(2, c.scaleH);
    NothingRead(2, c.pages);
    NothingRead(1, c.bitField);
    NothingRead(1, c.alpha);
    NothingRead(1, c.red);
    NothingRead(1, c.green);
    NothingRead(1, c.blue);
  }

  /** A kerning block there keeps the entries that the font has, as far as the size of the block asks for them, and adds
      empty ones.
   */
  lemma EndKeepsKernings(font: Font, size: nat)
    requires size % 10 == 0 && forall i :: 0 <= i < |font.kernings| ==> KerningOk(font.kernings[i])
    ensures var r := ReadKernings(font, size, []);
            && r.Reader? && r.ok && r.font == font.(kernings := r.font.kernings) && |r.font.kernings| == size / 10
            && forall i :: 0 <= i < size / 10 ==>
                 r.font.kernings[i] == if i < |font.kernings| then font.kernings[i] else Kerning(0, 0, 0)
  {
    KerningsKept(font.(kernings := Resized(font.kernings, size / 10)), 0);
  }

  lemma {:induction false} KerningsKept(font: Font, i: nat)
    requires i <= |font.kernings| && forall j :: 0 <= j < |font.kernings| ==> KerningOk(font.kernings[j])
    ensures ReadKerningsFrom(font, i, []) == Reader(font, [], true)
    decreases |font.kernings| - i
  {
    hide ReadU, ReadS;
    if i < |font.kernings| {
      var k := font.kernings[i];
      Powers();
      NothingRead(4, k.first);
      NothingRead(4, k.second);
      NoShortRead(k.amount);
      assert font.kernings[i := k] == font.kernings;
      KerningsKept(font, i + 1);
    }
  }
}
