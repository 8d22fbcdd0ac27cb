/** DisplayFont of Display/FontBMF.cpp in place: its block readers move the cursor of a file and fill the members of the
    font. Proved against FontFormat.
*/
module FontBMF {
  import opened FileMemory
  import opened FontFormat

  ghost predicate Ready(file: FileMemory)
    reads file, file.buffer
  {
    file.Valid() && 0 <= file.currentPos <= file.currentSize
  }

  /** A read, seen from what lies ahead of the cursor. */
  lemma AvailableIsHead(contents: seq<Byte>, pos: nat, n: nat)
    requires pos <= |contents|
    ensures var rest := contents[pos..];
            var data := Available(contents, pos, n);
            data == rest[..Least(n, |rest|)] && pos + |data| <= |contents|
              && contents[pos + |data|..] == rest[Least(n, |rest|)..]
  {
  }

  /** FileMemory::Read of `k` bytes into an unsigned variable that holds `before`. */
  method ReadUInt(file: FileMemory, k: nat, before: nat) returns (v: nat)
    requires Ready(file)
    modifies file`currentPos
    ensures Ready(file) && (v, file.Rest()) == ReadU(old(file.Rest()), k, before)
  {
    hide Available;
    AvailableIsHead(file.Contents(), file.currentPos, k);
    AvailableIsHead(file.Contents(), file.currentPos, 0);
    var data := file.Read(k);
    var bytes := data + ToLE(before, k)[|data|..];
    v := FromLE(bytes);
  }

  /** The same for a signed short. */
  method ReadSigned(file: FileMemory, before: int) returns (v: int)
    requires Ready(file)
    modifies file`currentPos
    ensures Ready(file) && (v, file.Rest()) == ReadS(old(file.Rest()), before)
  {
    var u := ReadUInt(file, 2, before % 65536);
    v := Signed(u);
  }

  /** FileMemory::Read of `length` bytes into a name buffer, of which `before` was written so far. */
  method ReadName(file: FileMemory, length: nat, before: seq<Byte>) returns (held: seq<Byte>)
    requires Ready(file)
    modifies file`currentPos
    ensures Ready(file) && held == Filled(before, length, old(file.Rest()))
    ensures file.Rest() == Behind(length, old(file.Rest()))
  {
    hide Available;
    var n := Int32(length);
    AvailableIsHead(file.Contents(), file.currentPos, if n <= 0 then 0 else n);
    AvailableIsHead(file.Contents(), file.currentPos, 0);
    var data := file.Read(n);
    held := data + if |data| < |before| then before[|data|..] else [];
  }

  /** One round of the loop of ReadBlockPages, and its end. */
  lemma NamesRound(font: Font, names: seq<seq<Byte>>, n: nat, length: nat, held: seq<Byte>, rest: seq<Byte>)
    requires n > 0
    ensures var held' := Filled(held, length, rest);
            ReadNames(font, names, n, length, held, rest) ==
            if !Terminated(held', length) then Undefined
            else ReadNames(font, names + [CString(held')], n - 1, length, held', Behind(length, rest))
  {
    hide CString, Filled, Behind, Terminated;
  }

  lemma NamesDone(font: Font, names: seq<seq<Byte>>, length: nat, held: seq<Byte>, rest: seq<Byte>)
    ensures ReadNames(font, names, 0, length, held, rest) == Reader(font.(pages := names), rest, true)
  {
  }

  class DisplayFont {
    var info: Info
    var common: Common
    var pages: seq<seq<Byte>>
    var chars: map<nat, Char>
    var kernings: seq<Kerning>

    ghost function St(): Font
      reads this
    {
      Font(info, common, pages, chars, kernings)
    }

    /** What a block reader has done: `defined` is false where the source goes on with a value that has no meaning. */
    ghost function Done(file: FileMemory, ok: bool, defined: bool): Reader
      requires Ready(file)
      reads this, file, file.buffer
    {
      if defined then Reader(St(), file.Rest(), ok) else Undefined
    }

    constructor ()
      ensures St() == Font(Info(0, 0, 0, 0, 0, 0, 0, 0, 0, 0, 0, 0, []), Common(0, 0, 0, 0, 0, 0, 0, 0, 0, 0), [],
                           map[], [])
    {
      info, common := Info(0, 0, 0, 0, 0, 0, 0, 0, 0, 0, 0, 0, []), Common(0, 0, 0, 0, 0, 0, 0, 0, 0, 0);
      pages, chars, kernings := [], map[], [];
    }

    /** The part of ReadBlockInfo before the name. */
    method ReadInfoFields(file: FileMemory) returns (head: Info)
      requires Ready(file)
      modifies file`currentPos
      ensures Ready(file) && (head, file.Rest()) == ReadInfoHead(info, old(file.Rest()))
    {
      hide ReadU, ReadS, FileMemory.Contents, FileMemory.Rest;
      var fontSize := ReadSigned(file, info.fontSize);
      var bitField := ReadUInt(file, 1, info.bitField);
      var charSet := ReadUInt(file, 1, info.charSet);
      var stretchH := ReadUInt(file, 2, info.stretchH);
      var aa := ReadUInt(file, 1, info.aa);
      var paddingUp := ReadUInt(file, 1, info.paddingUp);
      var paddingRight := ReadUInt(file, 1, info.paddingRight);
      var paddingDown := ReadUInt(file, 1, info.paddingDown);
      var paddingLeft := ReadUInt(file, 1, info.paddingLeft);
      var spacingHoriz := ReadUInt(file, 1, info.spacingHoriz);
      var spacingVert := ReadUInt(file, 1, info.spacingVert);
      var outline := ReadUInt(file, 1, info.outline);
      head := Info(fontSize, bitField, charSet, stretchH, aa, paddingUp, paddingRight, paddingDown, paddingLeft,
                   spacingHoriz, spacingVert, outline, info.name);
    }

    /** DisplayFont::ReadBlockInfo */
    method ReadBlockInfo(file: FileMemory, size: nat) returns (ok: bool, defined: bool)
      requires Ready(file)
      modifies this`info, file`currentPos
      ensures Ready(file) && Done(file, ok, defined) == ReadInfo(old(St()), size, old(file.Rest()))
    {
      hide ReadInfoHead, NameSize, CString, Filled, Behind, Terminated, FileMemory.Contents, FileMemory.Rest;
      ok := true;
      var head := ReadInfoFields(file);
      var length := NameSize(size);
      var held := ReadName(file, length, []);
      defined := Terminated(held, length);
      if defined { info := head.(name := CString(held)); }
    }

    /** DisplayFont::ReadBlockCommon */
    method ReadBlockCommon(file: FileMemory, size: nat) returns (ok: bool)
      requires Ready(file)
      modifies this`common, file`currentPos
      ensures Ready(file) && Done(file, ok, true) == ReadCommon(old(St()), size, old(file.Rest()))
    {
      hide ReadU, FileMemory.Contents, FileMemory.Rest;
      ok := true;
      var lineHeight := ReadUInt(file, 2, common.lineHeight);
      var base := ReadUInt(file, 2, common.base);
      var scaleW := ReadUInt(file, 2, common.scaleW);
      var scaleH := ReadUInt(file, 2, common.scaleH);
      var pageCount := ReadUInt(file, 2, common.pages);
      var bitField := ReadUInt(file, 1, common.bitField);
      var alpha := ReadUInt(file, 1, common.alpha);
      var red := ReadUInt(file, 1, common.red);
      var green := ReadUInt(file, 1, common.green);
      var blue := ReadUInt(file, 1, common.blue);
      common := Common(lineHeight, base, scaleW, scaleH, pageCount, bitField, alpha, red, green, blue);
    }

    /** The body of the loop in ReadBlockPages: one more name, unless the buffer holds none. */
    method ReadPageName(file: FileMemory, length: nat, before: seq<Byte>)
      returns (held: seq<Byte>, name: seq<Byte>, defined: bool)
      requires Ready(file)
      modifies file`currentPos
      ensures Ready(file) && held == Filled(before, length, old(file.Rest())) && name == CString(held)
      ensures file.Rest() == Behind(length, old(file.Rest())) && defined == Terminated(held, length)
    {
      hide CString, Filled, Behind, Terminated, FileMemory.Contents, FileMemory.Rest;
      held := ReadName(file, length, before);
      name, defined := CString(held), Terminated(held, length);
    }

    /** The loop of ReadBlockPages: `n` names of `length` bytes. */
    method ReadPageNames(file: FileMemory, n: nat, length: nat) returns (names: seq<seq<Byte>>, defined: bool)
      requires Ready(file)
      modifies file`currentPos
      ensures Ready(file)
      ensures ReadNames(St(), [], n, length, [], old(file.Rest()))
           == if defined then Reader(St().(pages := names), file.Rest(), true) else Undefined
    {
      hide CString, Filled, Behind, Terminated, ReadNames, FileMemory.Contents, FileMemory.Rest;
      ghost var font, rest := St(), file.Rest();
      names, defined := [], true;
      var held: seq<Byte>, i := [], 0;
      while i < n
        invariant 0 <= i <= n && Ready(file) && defined
        invariant ReadNames(font, names, n - i, length, held, file.Rest()) == ReadNames(font, [], n, length, [], rest)
      {
        NamesRound(font, names, n - i, length, held, file.Rest());
        var name;
        held, name, defined := ReadPageName(file, length, held);
        if !defined { return; }
        names := names + [name];
        i := i + 1;
      }
      NamesDone(font, names, length, held, file.Rest());
    }

    /** DisplayFont::ReadBlockPages */
    method ReadBlockPages(file: FileMemory, size: nat) returns (ok: bool, defined: bool)
      requires Ready(file)
      modifies this`pages, file`currentPos
      ensures Ready(file) && Done(file, ok, defined) == ReadPages(old(St()), size, old(file.Rest()))
    {
      hide ReadNames, FileMemory.Contents, FileMemory.Rest;
      ok, defined := true, common.pages != 0;
      if !defined { return; }
      ok := size % common.pages == 0;
      if ok {
        var names;
        names, defined := ReadPageNames(file, common.pages, size / common.pages);
        if defined { pages := names; }
      }
    }

    /** The fields of a character. */
    method ReadCharFields(file: FileMemory, id: nat) returns (c: Char)
      requires Ready(file)
      modifies file`currentPos
      ensures Ready(file) && (c, file.Rest()) == ReadChar(id, old(file.Rest()))
    {
      hide ReadU, ReadS, FileMemory.Contents, FileMemory.Rest;
      var x := ReadUInt(file, 2, 0);
      var y := ReadUInt(file, 2, 0);
      var width := ReadUInt(file, 2, 0);
      var height := ReadUInt(file, 2, 0);
      var xOffset := ReadSigned(file, 0);
      var yOffset := ReadSigned(file, 0);
      var xAdvance := ReadSigned(file, 0);
      var page := ReadUInt(file, 1, 0);
      var channel := ReadUInt(file, 1, 0);
      c := Char(id, x, y, width, height, xOffset, yOffset, xAdvance, page, channel);
    }

    /** The body of the loop in ReadBlockChars, for a new id. */
    method ReadOneChar(file: FileMemory, id: nat)
      requires Ready(file)
      modifies this`chars, file`currentPos
      ensures Ready(file) && chars == old(chars)[id := ReadChar(id, old(file.Rest())).0]
      ensures file.Rest() == ReadChar(id, old(file.Rest())).1
    {
      hide ReadChar, FileMemory.Contents, FileMemory.Rest;
      var c := ReadCharFields(file, id);
      chars := chars[id := c];
    }

    /** DisplayFont::ReadBlockChars */
    method ReadBlockChars(file: FileMemory, size: nat) returns (ok: bool)
      requires Ready(file)
      modifies this`chars, file`currentPos
      ensures Ready(file) && Done(file, ok, true) == ReadChars(old(St()), size, old(file.Rest()))
    {
      hide ReadU, ReadChar, FileMemory.Contents, FileMemory.Rest;
      ok := size % 20 == 0;
      if ok {
        var count := size / 20;
        var i := 0;
        while i < count
          invariant 0 <= i <= count && Ready(file) && ok
          invariant ReadCharsFrom(St(), count - i, file.Rest()) == ReadChars(old(St()), size, old(file.Rest()))
        {
          var id := ReadUInt(file, 4, 0);
          ok := id !in chars;
          if !ok { break; }
          ReadOneChar(file, id);
          i := i + 1;
        }
      }
    }

    /** The body of the loop in ReadBlockKerning. */
    method ReadOneKerning(file: FileMemory, i: nat)
      requires Ready(file) && i < |kernings|
      modifies this`kernings, file`currentPos
      ensures Ready(file) && kernings == old(kernings)[i := ReadKerning(old(kernings)[i], old(file.Rest())).0]
      ensures file.Rest() == ReadKerning(old(kernings)[i], old(file.Rest())).1
    {
      hide ReadU, ReadS, FileMemory.Contents, FileMemory.Rest;
      var first := ReadUInt(file, 4, kernings[i].first);
      var second := ReadUInt(file, 4, kernings[i].second);
      var amount := ReadSigned(file, kernings[i].amount);
      kernings := kernings[i := Kerning(first, second, amount)];
    }

    /** DisplayFont::ReadBlockKerning */
    method ReadBlockKerning(file: FileMemory, size: nat) returns (ok: bool)
      requires Ready(file)
      modifies this`kernings, file`currentPos
      ensures Ready(file) && Done(file, ok, true) == ReadKernings(old(St()), size, old(file.Rest()))
    {
      hide ReadKerning, FileMemory.Contents, FileMemory.Rest;
      ok := size % 10 == 0;
      if ok {
        var count := size / 10;
        kernings := Resized(kernings, count);
        var i := 0;
        while i < count
          invariant 0 <= i <= count == |kernings| && Ready(file)
          invariant ReadKerningsFrom(St(), i, file.Rest()) == ReadKernings(old(St()), size, old(file.Rest()))
        {
          ReadOneKerning(file, i);
          i := i + 1;
        }
      }
    }

    /** The switch over the block type. */
    method ReadTyped(file: FileMemory, typ: nat, size: nat) returns (ok: bool, defined: bool)
      requires Ready(file)
      modifies this, file`currentPos
      ensures Ready(file) && Done(file, ok, defined) == ReadBlock(old(St()), typ, size, old(file.Rest()))
    {
      hide ReadInfo, ReadCommon, ReadPages, ReadChars, ReadKernings, FileMemory.Contents, FileMemory.Rest;
      defined := true;
      match typ {
        case 1 => ok, defined := ReadBlockInfo(file, size);
        case 2 => ok := ReadBlockCommon(file, size);
        case 3 => ok, defined := ReadBlockPages(file, size);
        case 4 => ok := ReadBlockChars(file, size);
        case 5 => ok := ReadBlockKerning(file, size);
        case _ => ok := false;
      }
    }

    /** DisplayFont::CheckHeader */
    method CheckHeader(file: FileMemory) returns (ok: bool, defined: bool)
      requires Ready(file)
      modifies file`currentPos
      ensures Ready(file) && file.Rest() == old(file.Rest())[Least(4, |old(file.Rest())|)..]
      ensures Header(old(file.Rest()), 0) == if defined then FontFormat.Some(ok) else FontFormat.None
    {
      hide Available;
      ghost var rest := old(file.Rest());
      AvailableIsHead(file.Contents(), file.currentPos, 4);
      var header := file.Read(4);
      ok, defined := true, true;
      var i := 0;
      while i < 3 && ok && defined
        invariant 0 <= i <= 3
        invariant Header(rest, 0) == if !defined then FontFormat.None else if !ok then FontFormat.Some(false)
            else Header(rest, i)
      {
        if |header| <= i {
          defined := false;
        } else {
          ok := header[i] == BMF[i];
        }
        i := i + 1;
      }
    }

    ghost function Result(ok: bool, defined: bool): Outcome
      reads this
    {
      if !defined then Unspecified else if ok then Loaded(St()) else Rejected(St())
    }

    /** The loop of DisplayFont::Create. */
    method ReadBlocks(file: FileMemory) returns (ok: bool, defined: bool)
      requires Ready(file)
      modifies this, file`currentPos
      ensures Ready(file) && Result(ok, defined) == Blocks(old(St()), 0, 0, old(file.Rest()))
    {
      hide ReadU, ReadBlock;
      ok, defined := true, true;
      var typ, size := 0, 0;
      while ok && defined
        invariant Ready(file)
        invariant (if ok && defined then Blocks(St(), typ, size, file.Rest()) else Result(ok, defined))
               == Blocks(old(St()), 0, 0, old(file.Rest()))
        decreases ok && defined, |file.Rest()|
      {
        typ := ReadUInt(file, 1, typ);
        var end := file.EndOfFile();
        if end { break; }
        size := ReadUInt(file, 4, size);
        NeverLonger(St(), typ, size, file.Rest());
        ok, defined := ReadTyped(file, typ, size);
      }
    }

    /** DisplayFont::Release: goes through the names of all pages, then clears the names and keeps the page count. */
    method Release() returns (defined: bool)
      modifies this`pages, this`chars, this`kernings
      ensures defined == Named(old(St()))
      ensures St() == if defined then Cleared(old(St())) else old(St())
    {
      defined := true;
      var i := 0;
      while i < common.pages
        invariant 0 <= i <= common.pages && i <= |pages| && defined && St() == old(St())
      {
        if |pages| <= i {
          defined := false;
          return;
        }
        i := i + 1;
      }
      pages, chars, kernings := [], map[], [];
    }

    /** DisplayFont::LoadTextures, up to the textures themselves. */
    method LoadPageTextures(found: seq<Byte> -> bool) returns (ok: bool, defined: bool)
      ensures Result(ok, defined) == LoadTextures(St(), 0, found)
    {
      ok, defined := true, true;
      var i := 0;
      while i < common.pages
        invariant 0 <= i <= common.pages && ok && defined
        invariant LoadTextures(St(), i, found) == LoadTextures(St(), 0, found)
      {
        if |pages| <= i {
          defined := false;
          return;
        }
        ok := found(pages[i]);
        if !ok { break; }
        i := i + 1;
      }
    }

    /** DisplayFont::Create on an open file. */
    method Create(file: FileMemory, found: seq<Byte> -> bool) returns (ok: bool, defined: bool)
      requires Ready(file) && file.currentPos == 0
      modifies this, file`currentPos
      ensures Result(ok, defined) == Load(old(St()), old(file.Contents()), found)
    {
      hide Blocks, Header, LoadTextures;
      assert file.Rest() == file.Contents();
      ok := true;
      defined := Release();
      if !defined { return; }
      ok, defined := CheckHeader(file);
      if ok && defined {
        ok, defined := ReadBlocks(file);
        if ok && defined { ok, defined := LoadPageTextures(found); }
      }
    }
  }
}
