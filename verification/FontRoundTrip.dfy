/** Reading a font file that was written by FontFormat.Encode gives back the font. */
module FontRoundTrip {
  import opened FileMemory
  import opened FontFormat
  import opened Residues

  /** A name and its zero, read into a buffer of that length. */
  lemma NameBack(name: seq<Byte>, held: seq<Byte>, tail: seq<Byte>)
    requires 0 !in name && |name| + 1 < WRAP32 && |held| <= |name| + 1
    ensures var length, rest := |name| + 1, name + [0] + tail;
            if length < WRAP31 then
              var held' := Filled(held, length, rest);
              length == |held'| && Behind(length, rest) == tail && Terminated(held', length)
                && CString(held') == name
            else held == [] ==> !Terminated(Filled(held, length, rest), length)
  {
    hide CString;
    CStringOf(name);
    var rest := name + [0] + tail;
    assert rest[..|name| + 1] == name + [0] && rest[|name| + 1..] == tail;
    assert |name| + 1 < WRAP31 ==> Filled(held, |name| + 1, rest) == name + [0];
  }

  lemma InfoBack(font: Font, i: Info, tail: seq<Byte>)
    requires InfoOk(i)
    ensures ReadInfo(font, |i.name| + 15, PutInfo(i, tail)) ==
            if |i.name| + 1 < WRAP31 then Reader(font.(info := i), tail, true) else Undefined
  {
    hide ToLE, ReadU, ReadS, Behind, Filled, Terminated, CString;
    var e12 := i.name + [0] + tail;
    var e11 := Put(i.outline, 1, e12);
    var e10 := Put(i.spacingVert, 1, e11);
    var e9 := Put(i.spacingHoriz, 1, e10);
    var e8 := Put(i.paddingLeft, 1, e9);
    var e7 := Put(i.paddingDown, 1, e8);
    var e6 := Put(i.paddingRight, 1, e7);
    var e5 := Put(i.paddingUp, 1, e6);
    var e4 := Put(i.aa, 1, e5);
    var e3 := Put(i.stretchH, 2, e4);
    var e2 := Put(i.charSet, 1, e3);
    var e1 := Put(i.bitField, 1, e2);
    var b := font.info;
    ReadShort(i.fontSize, e1, b.fontSize);
    Read8(i.bitField, e2, b.bitField);
    Read8(i.charSet, e3, b.charSet);
    Read16(i.stretchH, e4, b.stretchH);
    Read8(i.aa, e5, b.aa);
    Read8(i.paddingUp, e6, b.paddingUp);
    Read8(i.paddingRight, e7, b.paddingRight);
    Read8(i.paddingDown, e8, b.paddingDown);
    Read8(i.paddingLeft, e9, b.paddingLeft);
    Read8(i.spacingHoriz, e10, b.spacingHoriz);
    Read8(i.spacingVert, e11, b.spacingVert);
    Read8(i.outline, e12, b.outline);
    NameBack(i.name, [], tail);
  }

  lemma CommonBack(font: Font, c: Common, size: nat, tail: seq<Byte>)
    requires CommonOk(c)
    ensures ReadCommon(font, size, PutCommon(c, tail)) == Reader(font.(common := c), tail, true)
  {
    hide ToLE, ReadU;
    var e9 := Put(c.blue, 1, tail);
    var e8 := Put(c.green, 1, e9);
    var e7 := Put(c.red, 1, e8);
    var e6 := Put(c.alpha, 1, e7);
    var e5 := Put(c.bitField, 1, e6);
    var e4 := Put(c.pages, 2, e5);
    var e3 := Put(c.scaleH, 2, e4);
    var e2 := Put(c.scaleW, 2, e3);
    var e1 := Put(c.base, 2, e2);
    var b := font.common;
    Read16(c.lineHeight, e1, b.lineHeight);
    Read16(c.base, e2, b.base);
    Read16(c.scaleW, e3, b.scaleW);
    Read16(c.scaleH, e4, b.scaleH);
    Read16(c.pages, e5, b.pages);
    Read8(c.bitField, e6, b.bitField);
    Read8(c.alpha, e7, b.alpha);
    Read8(c.red, e8, b.red);
    Read8(c.green, e9, b.green);
    Read8(c.blue, tail, b.blue);
  }

  lemma {:induction false} NamesBack(font: Font, names: seq<seq<Byte>>, pages: seq<seq<Byte>>, length: nat,
                                     held: seq<Byte>, tail: seq<Byte>)
    requires 0 < length < WRAP31 && |held| <= length
        && forall i :: 0 <= i < |pages| ==> 0 !in pages[i] && |pages[i]| == length - 1
    ensures ReadNames(font, names, |pages|, length, held, PutNames(pages, tail))
        == Reader(font.(pages := names + pages), tail, true)
    decreases |pages|
  {
    hide CString, Filled, Behind, Terminated;
    if pages == [] {
      assert names + pages == names;
    } else {
      var rest := PutNames(pages, tail);
      assert rest == pages[0] + [0] + PutNames(pages[1..], tail);
      NameBack(pages[0], held, PutNames(pages[1..], tail));
      NamesBack(font, names + [pages[0]], pages[1..], length, Filled(held, length, rest), tail);
      assert names + [pages[0]] + pages[1..] == names + pages;
    }
  }

  lemma PagesBack(font: Font, pages: seq<seq<Byte>>, length: nat, tail: seq<Byte>)
    requires PagesOk(pages, length) && font.common.pages == |pages|
    ensures ReadPages(font, |pages| * length, PutNames(pages, tail)) ==
            if length < WRAP31 then Reader(font.(pages := pages), tail, true) else Undefined
  {
    hide CString, Filled, Behind, Terminated;
    var n := |pages|;
    ModOf(length, 0, n);
    assert n * length + 0 == |pages| * length;
    if length < WRAP31 {
      NamesBack(font, [], pages, length, [], tail);
      assert [] + pages == pages;
    } else {
      OneMore(n, length);
      assert PutNames(pages, tail) == pages[0] + [0] + PutNames(pages[1..], tail);
      NameBack(pages[0], [], PutNames(pages[1..], tail));
    }
  }

  lemma CharBack(c: Char, tail: seq<Byte>)
    requires CharOk(c)
    ensures ReadChar(c.id, PutChar(c, tail)) == (c, tail)
  {
    hide ToLE, ReadU, ReadS;
    var e8 := Put(c.channel, 1, tail);
    var e7 := Put(c.page, 1, e8);
    var e6 := PutShort(c.xAdvance, e7);
    var e5 := PutShort(c.yOffset, e6);
    var e4 := PutShort(c.xOffset, e5);
    var e3 := Put(c.height, 2, e4);
    var e2 := Put(c.width, 2, e3);
    var e1 := Put(c.y, 2, e2);
    Read16(c.x, e1, 0);
    Read16(c.y, e2, 0);
    Read16(c.width, e3, 0);
    Read16(c.height, e4, 0);
    ReadShort(c.xOffset, e5, 0);
    ReadShort(c.yOffset, e6, 0);
    ReadShort(c.xAdvance, e7, 0);
    Read8(c.page, e8, 0);
    Read8(c.channel, tail, 0);
  }

  /** The first `n` characters are in the map. */
  lemma {:induction false} CharsBack(font: Font, chars: seq<Char>, n: nat, tail: seq<Byte>)
    requires CharsOk(chars) && n <= |chars| && font.chars == CharMap(chars[..n])
    ensures ReadCharsFrom(font, |chars| - n, PutChars(chars[n..], tail))
        == Reader(font.(chars := CharMap(chars)), tail, true)
    decreases |chars| - n
  {
    hide ReadU, ReadChar, PutChar, Put;
    if n == |chars| {
      assert chars[..n] == chars;
    } else {
      var c := chars[n];
      CharIds(chars, n);
      assert chars[n..][1..] == chars[n + 1..] && chars[..n + 1][..n] == chars[..n];
      var left := PutChar(c, PutChars(chars[n + 1..], tail));
      PutIs(c.id, 4, left);
      Read32(c.id, left, 0);
      CharBack(c, PutChars(chars[n + 1..], tail));
      CharsBack(font.(chars := font.chars[c.id := c]), chars, n + 1, tail);
    }
  }

  lemma PutIs(v: nat, k: nat, tail: seq<Byte>)
    ensures Put(v, k, tail) == ToLE(v, k) + tail
  {
  }

  lemma {:induction false} CharIds(chars: seq<Char>, n: nat)
    requires CharsOk(chars) && n <= |chars|
    ensures forall id :: id in CharMap(chars[..n]) <==> exists k :: 0 <= k < n && chars[k].id == id
  {
    if n > 0 {
      CharIds(chars, n - 1);
      assert chars[..n][..n - 1] == chars[..n - 1];
    }
  }

  lemma KerningBack(k: Kerning, before: Kerning, tail: seq<Byte>)
    requires KerningOk(k)
    ensures ReadKerning(before, Put(k.first, 4, Put(k.second, 4, PutShort(k.amount, tail)))) == (k, tail)
  {
    hide ToLE, ReadU, ReadS;
    var e2 := PutShort(k.amount, tail);
    var e1 := Put(k.second, 4, e2);
    Read32(k.first, e1, before.first);
    Read32(k.second, e2, before.second);
    ReadShort(k.amount, tail, before.amount);
  }

  /** The first `n` entries have been read. */
  lemma {:induction false} KerningsBack(font: Font, kernings: seq<Kerning>, n: nat, tail: seq<Byte>)
    requires KerningsOk(kernings) && n <= |kernings| == |font.kernings| && font.kernings[..n] == kernings[..n]
    ensures ReadKerningsFrom(font, n, PutKernings(kernings[n..], tail))
        == Reader(font.(kernings := kernings), tail, true)
    decreases |kernings| - n
  {
    hide ReadKerning, Put, PutShort;
    if n == |kernings| {
      assert font.kernings[..n] == font.kernings && kernings[..n] == kernings;
    } else {
      assert kernings[n..][1..] == kernings[n + 1..];
      KerningBack(kernings[n], font.kernings[n], PutKernings(kernings[n + 1..], tail));
      var font' := font.(kernings := font.kernings[n := kernings[n]]);
      assert font'.kernings[..n + 1] == kernings[..n + 1];
      KerningsBack(font', kernings, n + 1, tail);
    }
  }

  /** A block whose reader goes on with no meaning. */
  lemma BlockUndefined(font: Font, typ0: nat, size0: nat, typ: nat, size: nat, payload: seq<Byte>)
    requires typ < 256 && size < WRAP32 && ReadBlock(font, typ, size, payload) == Undefined
    ensures Blocks(font, typ0, size0, Put(typ, 1, Put(size, 4, payload))) == Unspecified
  {
    hide ReadU, ReadBlock, ToLE;
    Read8(typ, Put(size, 4, payload), typ0);
    Read32(size, payload, size0);
    assert Put(size, 4, payload)[0] == Put(size, 4, payload)[0];
  }

  /** One round of the block loop. */
  lemma BlockStep(font: Font, typ0: nat, size0: nat, typ: nat, size: nat, payload: seq<Byte>, font': Font,
                  tail: seq<Byte>)
    requires typ < 256 && size < WRAP32 && ReadBlock(font, typ, size, payload) == Reader(font', tail, true)
    ensures Blocks(font, typ0, size0, Put(typ, 1, Put(size, 4, payload))) == Blocks(font', typ, size, tail)
  {
    hide ReadU, ReadBlock, ToLE;
    Read8(typ, Put(size, 4, payload), typ0);
    Read32(size, payload, size0);
    assert Put(size, 4, payload)[0] == Put(size, 4, payload)[0];
  }

  /** The end of the file after the last block. */
  lemma BlocksEnd(font: Font, typ: nat, size: nat)
    ensures Blocks(font, typ, size, []) == Loaded(font)
  {
  }

  /** The page, character and kerning blocks of a font file. */
  function LastBlocks(pages: seq<seq<Byte>>, length: nat, chars: seq<Char>, kernings: seq<Kerning>): seq<Byte> {
    Put(3, 1, Put(|pages| * length, 4, PutNames(pages,
    Put(4, 1, Put(|chars| * 20, 4, PutChars(chars,
    Put(5, 1, Put(|kernings| * 10, 4, PutKernings(kernings, [])))))))))
  }

  lemma LastBlocksBack(f2: Font, pages: seq<seq<Byte>>, length: nat, chars: seq<Char>, kernings: seq<Kerning>)
    requires f2.pages == [] && f2.chars == map[] && f2.kernings == [] && f2.common.pages == |pages|
    requires PagesOk(pages, length) && CharsOk(chars) && KerningsOk(kernings)
    ensures Blocks(f2, 2, 15, LastBlocks(pages, length, chars, kernings)) ==
            if length < WRAP31 then Loaded(Font(f2.info, f2.common, pages, CharMap(chars), kernings)) else Unspecified
  {
    hide Put, PutNames, PutChars, PutKernings, ReadPages, ReadCharsFrom, ReadKerningsFrom, Blocks;
    var e5 := PutKernings(kernings, []);
    var b5 := Put(5, 1, Put(|kernings| * 10, 4, e5));
    var e4 := PutChars(chars, b5);
    var b4 := Put(4, 1, Put(|chars| * 20, 4, e4));
    PagesBack(f2, pages, length, b4);
    if length >= WRAP31 {
      BlockUndefined(f2, 2, 15, 3, |pages| * length, PutNames(pages, b4));
      return;
    }
    var f3 := f2.(pages := pages);
    BlockStep(f2, 2, 15, 3, |pages| * length, PutNames(pages, b4), f3, b4);
    assert chars[..0] == [] && chars[0..] == chars;
    CharsBack(f3, chars, 0, b5);
    var f4 := f3.(chars := CharMap(chars));
    BlockStep(f3, 3, |pages| * length, 4, |chars| * 20, e4, f4, b5);
    assert kernings[0..] == kernings;
    var f5 := f4.(kernings := kernings);
    KerningsBack(f4.(kernings := Resized([], |kernings|)), kernings, 0, []);
    BlockStep(f4, 4, |chars| * 20, 5, |kernings| * 10, e5, f5, []);
    BlocksEnd(f5, 5, |kernings| * 10);
  }

  /** The lengths of the names, with their zeros, are positive as an `int`. */
  predicate NamesFit(info: Info, length: nat) {
    |info.name| + 1 < WRAP31 && length < WRAP31
  }

  lemma BlocksBack(font: Font, info: Info, common: Common, pages: seq<seq<Byte>>, length: nat, chars: seq<Char>,
                   kernings: seq<Kerning>)
    requires InfoOk(info) && CommonOk(common) && common.pages == |pages| && PagesOk(pages, length) && CharsOk(chars)
        && KerningsOk(kernings)
    ensures var data := Encode(info, common, pages, length, chars, kernings);
            && |data| >= 4 && Header(data, 0) == Some(true)
            && Blocks(Cleared(font), 0, 0, data[4..]) ==
                 if NamesFit(info, length) then Loaded(Font(info, common, pages, CharMap(chars), kernings))
                   else Unspecified
  {
    hide InfoOk, CommonOk, PagesOk, Put, PutInfo, PutCommon, ReadInfo, ReadCommon, Blocks, Header, LastBlocks;
    var b3 := LastBlocks(pages, length, chars, kernings);
    var e2 := PutCommon(common, b3);
    var b2 := Put(2, 1, Put(15, 4, e2));
    var e1 := PutInfo(info, b2);
    NameFits(info);
    var b1 := Put(1, 1, Put(|info.name| + 15, 4, e1));
    EncodeIs(info, common, pages, length, chars, kernings);
    HeaderOf(b1);
    var f0 := Cleared(font);
    InfoBack(f0, info, b2);
    if |info.name| + 1 >= WRAP31 {
      BlockUndefined(f0, 0, 0, 1, |info.name| + 15, e1);
      return;
    }
    var f1 := f0.(info := info);
    BlockStep(f0, 0, 0, 1, |info.name| + 15, e1, f1, b2);
    CommonBack(f1, common, 15, b3);
    var f2 := f1.(common := common);
    BlockStep(f1, 1, |info.name| + 15, 2, 15, e2, f2, b3);
    LastBlocksBack(f2, pages, length, chars, kernings);
  }

  // ---------- Loading textures, and loading again ----------

  /** The texture loop succeeds if every page has a name and every texture is found; it runs past the names exactly if
      pages are missing, unless a texture stops it before.
   */
  lemma {:induction false} TexturesLoaded(font: Font, i: nat, found: seq<Byte> -> bool)
    requires i <= font.common.pages
    ensures LoadTextures(font, i, found) == Loaded(font) <==>
            (i < font.common.pages ==> Named(font))
              && forall k :: i <= k < font.common.pages && k < |font.pages| ==> found(font.pages[k])
    ensures LoadTextures(font, i, found).Loaded? ==> LoadTextures(font, i, found) == Loaded(font)
    ensures Named(font) ==>
              LoadTextures(font, i, found) == Loaded(font) || LoadTextures(font, i, found) == Rejected(font)
    decreases font.common.pages - i
  {
    if i < font.common.pages && i < |font.pages| && found(font.pages[i]) { TexturesLoaded(font, i + 1, found); }
  }

  /** A well-formed font file whose textures are found loads, and gives the font that was written, exactly if the
      object has a name for every page of what it held before and no name in the file is of 2^31 bytes or more.
      Otherwise Release runs past the names, or the reader takes a buffer for a name that it did not write.
   */
  lemma RoundTrip(font: Font, info: Info, common: Common, pages: seq<seq<Byte>>, length: nat, chars: seq<Char>,
                  kernings: seq<Kerning>, found: seq<Byte> -> bool)
    requires InfoOk(info) && CommonOk(common) && common.pages == |pages| && PagesOk(pages, length) && CharsOk(chars)
        && KerningsOk(kernings)
    ensures var written := Font(info, common, pages, CharMap(chars), kernings);
            var outcome := Load(font, Encode(info, common, pages, length, chars, kernings), found);
            && (outcome == Unspecified <==> !Named(font) || !NamesFit(info, length))
            && (outcome == Loaded(written) <==>
                  Named(font) && NamesFit(info, length) && forall i :: 0 <= i < |pages| ==> found(pages[i]))
            && (outcome == Unspecified || outcome == Loaded(written) || outcome == Rejected(written))
  {
    hide InfoOk, CommonOk, PagesOk, CharsOk, KerningsOk, Encode, Blocks, Header, LoadTextures;
    BlocksBack(font, info, common, pages, length, chars, kernings);
    TexturesLoaded(Font(info, common, pages, CharMap(chars), kernings), 0, found);
  }

  /** An object as constructed can load, and so can one after any load that succeeded, of whatever file. */
  lemma LoadedIsNamed(font: Font, data: seq<Byte>, found: seq<Byte> -> bool)
    ensures font.common.pages == 0 ==> Named(font)
    ensures var outcome := Load(font, data, found); outcome.Loaded? ==> Named(outcome.font)
  {
    hide Blocks, Header;
    if Named(font) && Header(data, 0) == Some(true) {
      match Blocks(Cleared(font), 0, 0, data[Least(4, |data|)..]) {
        case Loaded(font') => TexturesLoaded(font', 0, found);
        case _ =>
      }
    }
  }

  /** Load, Release, Create: Release keeps the page count and drops the names, so that after it nothing can be loaded,
      exactly if the font had pages.
   */
  lemma ReleasedCannotLoad(font: Font, data: seq<Byte>, found: seq<Byte> -> bool)
    requires Named(font)
    ensures Named(Cleared(font)) <==> font.common.pages == 0
    ensures font.common.pages > 0 ==> Load(Cleared(font), data, found) == Unspecified
  {
  }

  /** The same sequence on a file: a well-formed one was loaded, then released; any second load reads past the names. */
  lemma LoadReleaseLoad(font: Font, info: Info, common: Common, pages: seq<seq<Byte>>, length: nat, chars: seq<Char>,
                        kernings: seq<Kerning>, found: seq<Byte> -> bool, data: seq<Byte>)
    requires InfoOk(info) && CommonOk(common) && common.pages == |pages| && PagesOk(pages, length) && CharsOk(chars)
        && KerningsOk(kernings)
    requires Named(font) && NamesFit(info, length) && forall i :: 0 <= i < |pages| ==> found(pages[i])
    ensures var outcome := Load(font, Encode(info, common, pages, length, chars, kernings), found);
            outcome.Loaded? && Load(Cleared(outcome.font), data, found) == Unspecified
  {
    hide InfoOk, CommonOk, CharsOk, KerningsOk, Encode, Blocks, Header, LoadTextures;
    RoundTrip(font, info, common, pages, length, chars, kernings, found);
    ReleasedCannotLoad(Font(info, common, pages, CharMap(chars), kernings), data, found);
  }

  /** A file that is refused between its common and its page block: header, a common
      block with pages, an unknown block.
   */
  function Refused(common: Common, tail: seq<Byte>): seq<Byte> {
    BMF + [3] + Put(2, 1, Put(15, 4, PutCommon(common, Put(0, 1, Put(0, 4, tail)))))
  }

  /** Two loads in a row: the first is refused and leaves a page count without names, so the second reads past them. */
  lemma RefusedCannotLoad(font: Font, common: Common, tail: seq<Byte>, data: seq<Byte>, found: seq<Byte> -> bool)
    requires Named(font) && CommonOk(common) && common.pages > 0
    ensures var outcome := Load(font, Refused(common, tail), found);
            outcome.Rejected? && !Named(outcome.font) && Load(outcome.font, data, found) == Unspecified
  {
    hide Put, PutCommon, ReadCommon, Blocks, Header;
    var e2 := Put(0, 1, Put(0, 4, tail));
    var e1 := PutCommon(common, e2);
    var b1 := Put(2, 1, Put(15, 4, e1));
    HeaderOf(b1);
    var f0 := Cleared(font);
    CommonBack(f0, common, 15, e2);
    BlockStep(f0, 0, 0, 2, 15, e1, f0.(common := common), e2);
    UnknownBlock(f0.(common := common), 2, 15, tail);
  }

  lemma UnknownBlock(font: Font, typ0: nat, size0: nat, tail: seq<Byte>)
    ensures Blocks(font, typ0, size0, Put(0, 1, Put(0, 4, tail))) == Rejected(font)
  {
    hide ReadU, ToLE;
    Read8(0, Put(0, 4, tail), typ0);
    Read32(0, tail, size0);
    assert |Put(0, 4, tail)| > 0;
  }

  // ---------- A common block of another size ----------

  /** A common block that says 20 and has 20 bytes: the block loop takes 15 of them, and the other five
      for the head of the next block.
   */
  lemma OutOfStep(font: Font, typ0: nat, size0: nat, common: Common, extra: seq<Byte>, tail: seq<Byte>)
    requires CommonOk(common) && |extra| == 5
    ensures Blocks(font, typ0, size0, Put(2, 1, Put(20, 4, PutCommon(common, extra + tail))))
         == Blocks(font.(common := common), 2, 20, extra + tail)
  {
    hide Put, PutCommon, ReadCommon, Blocks;
    CommonBack(font, common, 20, extra + tail);
    BlockStep(font, typ0, size0, 2, 20, PutCommon(common, extra + tail), font.(common := common), extra + tail);
  }

  /** Where these are zeros, the file is refused, whatever well-formed blocks follow; with a block
      of 15 bytes it goes on to them.
   */
  lemma OversizedCommon(font: Font, typ0: nat, size0: nat, common: Common, tail: seq<Byte>)
    requires CommonOk(common)
    ensures Blocks(font, typ0, size0, Put(2, 1, Put(20, 4, PutCommon(common, [0, 0, 0, 0, 0] + tail))))
         == Rejected(font.(common := common))
    ensures Blocks(font, typ0, size0, Put(2, 1, Put(15, 4, PutCommon(common, tail))))
        == Blocks(font.(common := common), 2, 15, tail)
  {
    hide Blocks, PutCommon, ReadCommon;
    OutOfStep(font, typ0, size0, common, [0, 0, 0, 0, 0], tail);
    UnknownBlock(font.(common := common), 2, 20, tail);
    ZeroHead(tail);
    CommonBack(font, common, 15, tail);
    BlockStep(font, typ0, size0, 2, 15, PutCommon(common, tail), font.(common := common), tail);
  }

  lemma ZeroHead(tail: seq<Byte>)
    ensures Put(0, 1, Put(0, 4, tail)) == [0, 0, 0, 0, 0] + tail
  {
    Zeros(4);
    Zeros(1);
    assert ToLE(0, 1) + (ToLE(0, 4) + tail) == [0, 0, 0, 0, 0] + tail;
  }

  lemma {:induction false} Zeros(k: nat)
    ensures ToLE(0, k) == seq(k, _ => 0)
  {
    if k > 0 { Zeros(k - 1); }
  }

  lemma NameFits(info: Info)
    requires InfoOk(info)
    ensures |info.name| + 15 < WRAP32
  {
  }

  lemma EncodeIs(info: Info, common: Common, pages: seq<seq<Byte>>, length: nat, chars: seq<Char>,
                 kernings: seq<Kerning>)
    ensures Encode(info, common, pages, length, chars, kernings)
         == BMF + [3] + Put(1, 1, Put(|info.name| + 15, 4, PutInfo(info,
                        Put(2, 1, Put(15, 4, PutCommon(common, LastBlocks(pages, length, chars, kernings)))))))
  {
  }

  lemma HeaderOf(tail: seq<Byte>)
    ensures var data := BMF + [3] + tail; data[4..] == tail && Header(data, 0) == Some(true) && |data| >= 4
  {
    var data := BMF + [3] + tail;
    assert data[0] == 66 && data[1] == 77 && data[2] == 70;
    assert Header(data, 3) == Some(true);
    assert Header(data, 2) == Some(true);
    assert Header(data, 1) == Some(true);
  }
}
