/** The AngelCode bitmap font binary format as Display/FontBMF.cpp reads it, and as it is written. Reading works on
    what is left of the file. A read that hits the end of the file leaves the bytes that it does not get as they were.
*/
module FontFormat {
  import opened FileMemory

  const WRAP31 := 0x8000_0000
  const WRAP32 := 0x1_0000_0000

  // ---------- Little-endian numbers ----------

  function Pow256(k: nat): nat {
    if k == 0 then 1 else 256 * Pow256(k - 1)
  }

  function ToLE(v: nat, k: nat): (b: seq<Byte>)
    ensures |b| == k
  {
    if k == 0 then [] else [v % 256] + ToLE(v / 256, k - 1)
  }

  function FromLE(b: seq<Byte>): nat {
    if b == [] then 0 else b[0] + 256 * FromLE(b[1..])
  }

  lemma {:induction false} FromTo(v: nat, k: nat)
    requires v < Pow256(k)
    ensures FromLE(ToLE(v, k)) == v
  {
    if k > 0 {
      FromTo(v / 256, k - 1);
      assert ToLE(v, k)[1..] == ToLE(v / 256, k - 1);
    }
  }

  lemma {:induction false} FromBound(b: seq<Byte>)
    ensures FromLE(b) < Pow256(|b|)
  {
    if b != [] { FromBound(b[1..]); }
  }

  lemma Powers()
    ensures Pow256(1) == 256 && Pow256(2) == 65536 && Pow256(4) == WRAP32
  {
    assert Pow256(3) == 256 * Pow256(2);
  }

  /** What is left of `n` bytes after a read of `k`. */
  function Remains(n: nat, k: nat): nat {
    if k <= n then n - k else 0
  }

  /** Reading `k` bytes into a variable that holds `before`. */
  function ReadU(rest: seq<Byte>, k: nat, before: nat): (r: (nat, seq<Byte>))
    ensures |r.1| <= |rest| && (k > 0 && rest != [] ==> |r.1| < |rest|)
    ensures |r.1| == Remains(|rest|, k)
  {
    var n := Least(k, |rest|);
    (FromLE(rest[..n] + ToLE(before, k)[n..]), rest[n..])
  }

  function Signed(u: int): int {
    if u % 65536 < 32768 then u % 65536 else u % 65536 - 65536
  }

  /** The same for a signed short. */
  function ReadS(rest: seq<Byte>, before: int): (r: (int, seq<Byte>))
    ensures |r.1| == Remains(|rest|, 2)
  {
    var (u, left) := ReadU(rest, 2, before % 65536);
    (Signed(u), left)
  }

  lemma ReadHead(v: nat, k: nat, tail: seq<Byte>, before: nat)
    requires v < Pow256(k)
    ensures ReadU(ToLE(v, k) + tail, k, before) == (v, tail)
  {
    FromTo(v, k);
    assert (ToLE(v, k) + tail)[..k] + ToLE(before, k)[k..] == ToLE(v, k);
  }

  lemma Read8(v: nat, tail: seq<Byte>, before: nat)
    requires v < 256
    ensures ReadU(ToLE(v, 1) + tail, 1, before) == (v, tail)
  {
    Powers();
    ReadHead(v, 1, tail, before);
  }

  lemma Read16(v: nat, tail: seq<Byte>, before: nat)
    requires v < 65536
    ensures ReadU(ToLE(v, 2) + tail, 2, before) == (v, tail)
  {
    Powers();
    ReadHead(v, 2, tail, before);
  }

  lemma Read32(v: nat, tail: seq<Byte>, before: nat)
    requires v < WRAP32
    ensures ReadU(ToLE(v, 4) + tail, 4, before) == (v, tail)
  {
    Powers();
    ReadHead(v, 4, tail, before);
  }

  lemma ReadShort(v: int, tail: seq<Byte>, before: int)
    requires -32768 <= v < 32768
    ensures ReadS(ToLE(v % 65536, 2) + tail, before) == (v, tail)
  {
    Powers();
    ReadHead(v % 65536, 2, tail, before % 65536);
  }

  // ---------- The font ----------

  datatype Info = Info(fontSize: int, bitField: nat, charSet: nat, stretchH: nat, aa: nat, paddingUp: nat,
                       paddingRight: nat, paddingDown: nat, paddingLeft: nat, spacingHoriz: nat, spacingVert: nat,
                       outline: nat, name: seq<Byte>)

  datatype Common = Common(lineHeight: nat, base: nat, scaleW: nat, scaleH: nat, pages: nat, bitField: nat, alpha: nat,
                           red: nat, green: nat, blue: nat)

  datatype Char = Char(id: nat, x: nat, y: nat, width: nat, height: nat, xOffset: int, yOffset: int, xAdvance: int,
                       page: nat, channel: nat)

  datatype Kerning = Kerning(first: nat, second: nat, amount: int)

  datatype Font = Font(info: Info, common: Common, pages: seq<seq<Byte>>, chars: map<nat, Char>, kernings: seq<Kerning>)

  /** A block reader's result: the font so far, what is left of the file, and whether the block was accepted; or a
      state that the language gives no meaning to: memory that was never written is read, or a number is divided by 0.
   */
  datatype Reader = Reader(font: Font, rest: seq<Byte>, ok: bool) | Undefined

  /** The string that a character buffer holds: up to the first zero. */
  function CString(b: seq<Byte>): seq<Byte> {
    if b == [] || b[0] == 0 then [] else [b[0]] + CString(b[1..])
  }

  lemma {:induction false} CStringOf(name: seq<Byte>)
    requires 0 !in name
    ensures CString(name + [0]) == name
  {
    if name != [] {
      assert (name + [0])[1..] == name[1..] + [0];
      CStringOf(name[1..]);
    }
  }

  // ---------- Names ----------

  /** An unsigned number, passed where an `int` is expected. */
  function Int32(u: int): int {
    if u % WRAP32 < WRAP31 then u % WRAP32 else u % WRAP32 - WRAP32
  }

  /** How many bytes a read of a name of `length` bytes gets: a negative number reads nothing. */
  function Got(length: nat, rest: seq<Byte>): (k: nat)
    ensures k <= |rest|
  {
    if Int32(length) <= 0 then 0 else Least(Int32(length), |rest|)
  }

  /** The part of a name buffer that was written: what the read gets, and behind it what earlier reads left. */
  function Filled(held: seq<Byte>, length: nat, rest: seq<Byte>): seq<Byte> {
    var k := Got(length, rest);
    rest[..k] + if k < |held| then held[k..] else []
  }

  /** What is left of the file behind it. */
  function Behind(length: nat, rest: seq<Byte>): (r: seq<Byte>)
    ensures |r| <= |rest|
  {
    rest[Got(length, rest)..]
  }

  /** The buffer holds a string: a zero was read, or everything before the zero that ends the buffer. */
  predicate Terminated(held: seq<Byte>, length: nat) {
    0 in held || length <= |held|
  }

  // ---------- Reading blocks ----------

  /** The fields of the info block before the name. */
  function ReadInfoHead(i: Info, rest: seq<Byte>): (r: (Info, seq<Byte>))
    ensures |r.1| == Remains(|rest|, 14)
  {
    hide ReadU, ReadS;
    var (fontSize, r1) := ReadS(rest, i.fontSize);
    var (bitField, r2) := ReadU(r1, 1, i.bitField);
    var (charSet, r3) := ReadU(r2, 1, i.charSet);
    var (stretchH, r4) := ReadU(r3, 2, i.stretchH);
    var (aa, r5) := ReadU(r4, 1, i.aa);
    var (paddingUp, r6) := ReadU(r5, 1, i.paddingUp);
    var (paddingRight, r7) := ReadU(r6, 1, i.paddingRight);
    var (paddingDown, r8) := ReadU(r7, 1, i.paddingDown);
    var (paddingLeft, r9) := ReadU(r8, 1, i.paddingLeft);
    var (spacingHoriz, r10) := ReadU(r9, 1, i.spacingHoriz);
    var (spacingVert, r11) := ReadU(r10, 1, i.spacingVert);
    var (outline, r12) := ReadU(r11, 1, i.outline);
    (Info(fontSize, bitField, charSet, stretchH, aa, paddingUp, paddingRight, paddingDown, paddingLeft, spacingHoriz,
          spacingVert, outline, i.name), r12)
  }

  /** What is left of an info block for the name, as an unsigned number. */
  function NameSize(size: nat): nat {
    (size - 14) % WRAP32
  }

  /** DisplayFont::ReadBlockInfo */
  function ReadInfo(font: Font, size: nat, rest: seq<Byte>): Reader {
    var (head, r1) := ReadInfoHead(font.info, rest);
    var length := NameSize(size);
    var held := Filled([], length, r1);
    if !Terminated(held, length) then Undefined
    else Reader(font.(info := head.(name := CString(held))), Behind(length, r1), true)
  }

  /** DisplayFont::ReadBlockCommon; the block size is not looked at. */
  function ReadCommon(font: Font, size: nat, rest: seq<Byte>): Reader {
    var c := font.common;
    var (lineHeight, r1) := ReadU(rest, 2, c.lineHeight);
    var (base, r2) := ReadU(r1, 2, c.base);
    var (scaleW, r3) := ReadU(r2, 2, c.scaleW);
    var (scaleH, r4) := ReadU(r3, 2, c.scaleH);
    var (pages, r5) := ReadU(r4, 2, c.pages);
    var (bitField, r6) := ReadU(r5, 1, c.bitField);
    var (alpha, r7) := ReadU(r6, 1, c.alpha);
    var (red, r8) := ReadU(r7, 1, c.red);
    var (green, r9) := ReadU(r8, 1, c.green);
    var (blue, r10) := ReadU(r9, 1, c.blue);
    Reader(font.(common := Common(lineHeight, base, scaleW, scaleH, pages, bitField, alpha, red, green, blue)), r10,
           true)
  }

  /** The loop of ReadBlockPages: `n` more names of `length` bytes, all read into one buffer. */
  function ReadNames(font: Font, names: seq<seq<Byte>>, n: nat, length: nat, held: seq<Byte>, rest: seq<Byte>): Reader
    decreases n
  {
    if n == 0 then Reader(font.(pages := names), rest, true)
    else
      var held' := Filled(held, length, rest);
      if !Terminated(held', length) then Undefined
      else ReadNames(font, names + [CString(held')], n - 1, length, held', Behind(length, rest))
  }

  /** DisplayFont::ReadBlockPages */
  function ReadPages(font: Font, size: nat, rest: seq<Byte>): Reader {
    if font.common.pages == 0 then Undefined
    else if size % font.common.pages != 0 then Reader(font, rest, false)
    else ReadNames(font, [], font.common.pages, size / font.common.pages, [], rest)
  }

  function ReadChar(id: nat, rest: seq<Byte>): (r: (Char, seq<Byte>))
    ensures |r.1| == Remains(|rest|, 16)
  {
    var (x, r1) := ReadU(rest, 2, 0);
    var (y, r2) := ReadU(r1, 2, 0);
    var (width, r3) := ReadU(r2, 2, 0);
    var (height, r4) := ReadU(r3, 2, 0);
    var (xOffset, r5) := ReadS(r4, 0);
    var (yOffset, r6) := ReadS(r5, 0);
    var (xAdvance, r7) := ReadS(r6, 0);
    var (page, r8) := ReadU(r7, 1, 0);
    var (channel, r9) := ReadU(r8, 1, 0);
    (Char(id, x, y, width, height, xOffset, yOffset, xAdvance, page, channel), r9)
  }

  /** The loop of ReadBlockChars: `n` more characters, each with an id that is new. */
  function ReadCharsFrom(font: Font, n: nat, rest: seq<Byte>): Reader
    decreases n
  {
    if n == 0 then Reader(font, rest, true)
    else
      var (id, r1) := ReadU(rest, 4, 0);
      if id in font.chars then Reader(font, r1, false)
      else
        var (c, r2) := ReadChar(id, r1);
        ReadCharsFrom(font.(chars := font.chars[id := c]), n - 1, r2)
  }

  /** DisplayFont::ReadBlockChars */
  function ReadChars(font: Font, size: nat, rest: seq<Byte>): Reader {
    if size % 20 != 0 then Reader(font, rest, false) else ReadCharsFrom(font, size / 20, rest)
  }

  const NO_KERNING := Kerning(0, 0, 0)

  function ReadKerning(before: Kerning, rest: seq<Byte>): (r: (Kerning, seq<Byte>))
    ensures |r.1| == Remains(|rest|, 10)
  {
    var (first, r1) := ReadU(rest, 4, before.first);
    var (second, r2) := ReadU(r1, 4, before.second);
    var (amount, r3) := ReadS(r2, before.amount);
    (Kerning(first, second, amount), r3)
  }

  /** vector::resize */
  function Resized(s: seq<Kerning>, n: nat): (r: seq<Kerning>)
    ensures |r| == n
  {
    if n <= |s| then s[..n] else s + seq(n - |s|, _ => NO_KERNING)
  }

  /** The loop of ReadBlockKerning, from entry `i` on. */
  function ReadKerningsFrom(font: Font, i: nat, rest: seq<Byte>): Reader
    requires i <= |font.kernings|
    decreases |font.kernings| - i
  {
    if i == |font.kernings| then Reader(font, rest, true)
    else
      var (k, r1) := ReadKerning(font.kernings[i], rest);
      ReadKerningsFrom(font.(kernings := font.kernings[i := k]), i + 1, r1)
  }

  /** DisplayFont::ReadBlockKerning */
  function ReadKernings(font: Font, size: nat, rest: seq<Byte>): Reader {
    if size % 10 != 0 then Reader(font, rest, false)
    else ReadKerningsFrom(font.(kernings := Resized(font.kernings, size / 10)), 0, rest)
  }

  function ReadBlock(font: Font, typ: nat, size: nat, rest: seq<Byte>): Reader {
    match typ
    case 1 => ReadInfo(font, size, rest)
    case 2 => ReadCommon(font, size, rest)
    case 3 => ReadPages(font, size, rest)
    case 4 => ReadChars(font, size, rest)
    case 5 => ReadKernings(font, size, rest)
    case _ => Reader(font, rest, false)
  }

  // ---------- How far a reader gets ----------

  /** A read of a whole name; one of a length that is no `int` leaves a new buffer unwritten. */
  lemma NameTaken(length: nat, held: seq<Byte>, rest: seq<Byte>)
    requires length < WRAP31 || (length < WRAP32 && held == [])
    ensures length < WRAP31 ==> |Behind(length, rest)| == Remains(|rest|, length)
    ensures length >= WRAP31 ==> !Terminated(Filled(held, length, rest), length)
  {
  }

  lemma OneMore(n: nat, length: nat)
    requires n > 0
    ensures (n - 1) * length >= 0 && n * length == (n - 1) * length + length
  {
  }

  lemma {:induction false} NamesLength(font: Font, names: seq<seq<Byte>>, n: nat, length: nat, held: seq<Byte>,
                                       rest: seq<Byte>)
    requires length < WRAP31 || (length < WRAP32 && held == [])
    ensures var r := ReadNames(font, names, n, length, held, rest);
            r.Reader? ==> r.ok && |r.rest| == Remains(|rest|, n * length)
    decreases n
  {
    hide CString, Filled, Behind, Terminated;
    if n > 0 {
      var held' := Filled(held, length, rest);
      NameTaken(length, held, rest);
      OneMore(n, length);
      if Terminated(held', length) {
        NamesLength(font, names + [CString(held')], n - 1, length, held', Behind(length, rest));
      }
    }
  }

  lemma {:induction false} NamesNeverLonger(font: Font, names: seq<seq<Byte>>, n: nat, length: nat, held: seq<Byte>,
                                            rest: seq<Byte>)
    ensures var r := ReadNames(font, names, n, length, held, rest); r.Reader? ==> |r.rest| <= |rest|
    decreases n
  {
    hide CString, Filled, Behind, Terminated;
    if n > 0 {
      var held' := Filled(held, length, rest);
      NamesNeverLonger(font, names + [CString(held')], n - 1, length, held', Behind(length, rest));
    }
  }

  lemma {:induction false} CharsLength(font: Font, n: nat, rest: seq<Byte>)
    ensures var r := ReadCharsFrom(font, n, rest); r.Reader? && |r.rest| <= |rest|
    ensures var r := ReadCharsFrom(font, n, rest); r.ok ==> |r.rest| == Remains(|rest|, n * 20)
    decreases n
  {
    hide ReadU, ReadChar;
    if n > 0 {
      var (id, r1) := ReadU(rest, 4, 0);
      if id !in font.chars {
        var (c, r2) := ReadChar(id, r1);
        CharsLength(font.(chars := font.chars[id := c]), n - 1, r2);
      }
    }
  }

  lemma {:induction false} KerningsLength(font: Font, i: nat, rest: seq<Byte>)
    requires i <= |font.kernings|
    ensures var r := ReadKerningsFrom(font, i, rest);
            r.Reader? && r.ok && |r.rest| == Remains(|rest|, (|font.kernings| - i) * 10)
    decreases |font.kernings| - i
  {
    hide ReadKerning;
    if i < |font.kernings| {
      var (k, r1) := ReadKerning(font.kernings[i], rest);
      KerningsLength(font.(kernings := font.kernings[i := k]), i + 1, r1);
    }
  }

  lemma InfoNeverLonger(font: Font, size: nat, rest: seq<Byte>)
    ensures var r := ReadInfo(font, size, rest); r.Reader? ==> |r.rest| <= |rest|
  {
    hide ReadInfoHead, CString, Filled, Terminated, Behind;
  }

  lemma NeverLonger(font: Font, typ: nat, size: nat, rest: seq<Byte>)
    ensures var r := ReadBlock(font, typ, size, rest); r.Reader? ==> |r.rest| <= |rest|
  {
    hide ReadInfo, ReadCommon, ReadNames, ReadCharsFrom, ReadKerningsFrom;
    match typ {
      case 1 => InfoNeverLonger(font, size, rest);
      case 2 => CommonInStep(font, size, rest);
      case 3 => if font.common.pages > 0 {
        NamesNeverLonger(font, [], font.common.pages, size / font.common.pages, [], rest);
      }
      case 4 => CharsLength(font, size / 20, rest);
      case 5 => KerningsLength(font.(kernings := Resized(font.kernings, size / 10)), 0, rest);
      case _ =>
    }
  }

  /** A reader that accepts a block takes exactly the block size, or all that is left of the file, and so stays in
      step with the file; but for the common block, which takes 15 bytes whatever its size says.
   */
  lemma InStep(font: Font, typ: nat, size: nat, rest: seq<Byte>)
    requires size < WRAP32
    ensures var r := ReadBlock(font, typ, size, rest);
            r.Reader? && r.ok ==>
              (|r.rest| == |rest| - Least(size, |rest|) <==> typ != 2 || Least(size, |rest|) == Least(15, |rest|))
  {
    hide ReadInfo, ReadCommon, ReadPages, ReadCharsFrom, ReadKerningsFrom;
    match typ {
      case 1 => InfoInStep(font, size, rest);
      case 2 => CommonInStep(font, size, rest);
      case 3 => PagesInStep(font, size, rest);
      case 4 => CharsLength(font, size / 20, rest);
      case 5 => KerningsLength(font.(kernings := Resized(font.kernings, size / 10)), 0, rest);
      case _ =>
    }
  }

  lemma InfoInStep(font: Font, size: nat, rest: seq<Byte>)
    requires size < WRAP32
    ensures var r := ReadInfo(font, size, rest); r.Reader? ==> |r.rest| == Remains(|rest|, size)
  {
    hide ReadInfoHead, CString, Filled, Terminated, Behind, NameSize;
    NameSizes(size);
    NameTaken(NameSize(size), [], ReadInfoHead(font.info, rest).1);
  }

  /** A block of less than 14 bytes gives the name a length that is no `int`. */
  lemma NameSizes(size: nat)
    requires size < WRAP32
    ensures NameSize(size) == if size < 14 then WRAP32 + size - 14 else size - 14
  {
  }

  lemma CommonInStep(font: Font, size: nat, rest: seq<Byte>)
    ensures var r := ReadCommon(font, size, rest); r.Reader? && |r.rest| == Remains(|rest|, 15)
  {
    hide ReadU;
  }

  lemma PagesInStep(font: Font, size: nat, rest: seq<Byte>)
    requires size < WRAP32
    ensures var r := ReadPages(font, size, rest); r.Reader? && r.ok ==> |r.rest| == Remains(|rest|, size)
  {
    var n := font.common.pages;
    if n > 0 && size % n == 0 {
      Quotient(size, n);
      NamesLength(font, [], n, size / n, [], rest);
    }
  }

  lemma Quotient(size: nat, n: nat)
    requires n > 0
    ensures n * (size / n) == size - size % n && size / n <= size
  {
    var q := size / n;
    OneMore(n, q);
  }

  // ---------- The whole file ----------

  datatype Outcome = Loaded(font: Font) | Rejected(font: Font) | Unspecified

  /** The loop of DisplayFont::Create. `typ` and `size` are the variables that keep their values from block to block. */
  function Blocks(font: Font, typ: nat, size: nat, rest: seq<Byte>): Outcome
    decreases |rest|
  {
    var (typ', r1) := ReadU(rest, 1, typ);
    if r1 == [] then Loaded(font)
    else
      var (size', r2) := ReadU(r1, 4, size);
      NeverLonger(font, typ', size', r2);
      match ReadBlock(font, typ', size', r2)
      case Undefined => Unspecified
      case Reader(font', r3, ok) => if ok then Blocks(font', typ', size', r3) else Rejected(font')
  }

  const BMF: seq<Byte> := [66, 77, 70]

  /** DisplayFont::CheckHeader: the three letters, one after the other; the version is not looked at. */
  function Header(rest: seq<Byte>, i: nat): (ok: Option<bool>)
    requires i <= 3
    decreases 3 - i
  {
    if i == 3 then Some(true)
    else if |rest| <= i then None
    else if rest[i] != BMF[i] then Some(false)
    else Header(rest, i + 1)
  }

  datatype Option<T> = None | Some(value: T)

  /** The font has a name for each of its pages: what the loops of Release and
      LoadTextures over the page count rely on.
   */
  predicate Named(font: Font) {
    font.common.pages <= |font.pages|
  }

  /** What DisplayFont::Release leaves of a font: the page count stays. */
  function Cleared(font: Font): Font {
    font.(pages := [], chars := map[], kernings := [])
  }

  /** The loop of DisplayFont::LoadTextures from page `i` on; `found` says which textures can be loaded. */
  function LoadTextures(font: Font, i: nat, found: seq<Byte> -> bool): Outcome
    requires i <= font.common.pages
    decreases font.common.pages - i
  {
    if i == font.common.pages then Loaded(font)
    else if |font.pages| <= i then Unspecified
    else if !found(font.pages[i]) then Rejected(font)
    else LoadTextures(font, i + 1, found)
  }

  /** DisplayFont::Create for a file with the given contents. It begins with Release, which goes through the names of
      all pages of the font that the object held before.
   */
  function Load(font: Font, data: seq<Byte>, found: seq<Byte> -> bool): Outcome {
    if !Named(font) then Unspecified
    else
      match Header(data, 0)
      case None => Unspecified
      case Some(ok) =>
        if !ok then Rejected(Cleared(font))
        else
          match Blocks(Cleared(font), 0, 0, data[Least(4, |data|)..])
          case Loaded(font') => LoadTextures(font', 0, found)
          case other => other
  }

  // ---------- Writing a font ----------

  predicate ByteSized(v: nat) { v < 256 }

  predicate WordSized(v: nat) { v < 65536 }

  predicate ShortSized(v: int) { -32768 <= v < 32768 }

  predicate InfoOk(i: Info) {
    && ShortSized(i.fontSize) && ByteSized(i.bitField) && ByteSized(i.charSet) && WordSized(i.stretchH)
      && ByteSized(i.aa)
    && ByteSized(i.paddingUp) && ByteSized(i.paddingRight) && ByteSized(i.paddingDown) && ByteSized(i.paddingLeft)
    && ByteSized(i.spacingHoriz) && ByteSized(i.spacingVert) && ByteSized(i.outline) && 0 !in i.name
      && |i.name| + 15 < WRAP32
  }

  predicate CommonOk(c: Common) {
    && WordSized(c.lineHeight) && WordSized(c.base) && WordSized(c.scaleW) && WordSized(c.scaleH) && WordSized(c.pages)
    && ByteSized(c.bitField) && ByteSized(c.alpha) && ByteSized(c.red) && ByteSized(c.green) && ByteSized(c.blue)
  }

  /** Page names all have the same length; there is a page. */
  predicate PagesOk(pages: seq<seq<Byte>>, length: nat) {
    && 0 < |pages| < 65536 && length > 0 && |pages| * length < WRAP32
    && forall i :: 0 <= i < |pages| ==> 0 !in pages[i] && |pages[i]| == length - 1
  }

  predicate CharOk(c: Char) {
    && c.id < WRAP32 && WordSized(c.x) && WordSized(c.y) && WordSized(c.width) && WordSized(c.height)
    && ShortSized(c.xOffset) && ShortSized(c.yOffset) && ShortSized(c.xAdvance) && ByteSized(c.page)
      && ByteSized(c.channel)
  }

  ghost predicate CharsOk(chars: seq<Char>) {
    && |chars| * 20 < WRAP32 && (forall i :: 0 <= i < |chars| ==> CharOk(chars[i]))
    && forall i, j :: 0 <= i < j < |chars| ==> chars[i].id != chars[j].id
  }

  predicate KerningOk(k: Kerning) {
    k.first < WRAP32 && k.second < WRAP32 && ShortSized(k.amount)
  }

  ghost predicate KerningsOk(kernings: seq<Kerning>) {
    |kernings| * 10 < WRAP32 && forall i :: 0 <= i < |kernings| ==> KerningOk(kernings[i])
  }

  /** Each writer puts its part before `tail`. */
  function PutShort(v: int, tail: seq<Byte>): seq<Byte> { ToLE(v % 65536, 2) + tail }

  function Put(v: nat, k: nat, tail: seq<Byte>): seq<Byte> { ToLE(v, k) + tail }

  function PutInfo(i: Info, tail: seq<Byte>): seq<Byte> {
    PutShort(i.fontSize, Put(i.bitField, 1, Put(i.charSet, 1, Put(i.stretchH, 2, Put(i.aa, 1, Put(i.paddingUp, 1,
      Put(i.paddingRight, 1, Put(i.paddingDown, 1, Put(i.paddingLeft, 1, Put(i.spacingHoriz, 1, Put(i.spacingVert, 1,
      Put(i.outline, 1, i.name + [0] + tail))))))))))))
  }

  function PutCommon(c: Common, tail: seq<Byte>): seq<Byte> {
    Put(c.lineHeight, 2, Put(c.base, 2, Put(c.scaleW, 2, Put(c.scaleH, 2, Put(c.pages, 2,
      Put(c.bitField, 1, Put(c.alpha, 1, Put(c.red, 1, Put(c.green, 1, Put(c.blue, 1, tail))))))))))
  }

  function PutNames(pages: seq<seq<Byte>>, tail: seq<Byte>): seq<Byte> {
    if pages == [] then tail else pages[0] + [0] + PutNames(pages[1..], tail)
  }

  function PutChar(c: Char, tail: seq<Byte>): seq<Byte> {
    Put(c.x, 2, Put(c.y, 2, Put(c.width, 2, Put(c.height, 2,
      PutShort(c.xOffset, PutShort(c.yOffset, PutShort(c.xAdvance, Put(c.page, 1, Put(c.channel, 1, tail)))))))))
  }

  function PutChars(chars: seq<Char>, tail: seq<Byte>): seq<Byte> {
    if chars == [] then tail else Put(chars[0].id, 4, PutChar(chars[0], PutChars(chars[1..], tail)))
  }

  function PutKernings(kernings: seq<Kerning>, tail: seq<Byte>): seq<Byte> {
    if kernings == [] then tail
    else Put(kernings[0].first, 4, Put(kernings[0].second, 4,
                                       PutShort(kernings[0].amount, PutKernings(kernings[1..], tail))))
  }

  /** A font file, version 3: the five blocks in order. Page names take `length` bytes each. */
  function Encode(info: Info, common: Common, pages: seq<seq<Byte>>, length: nat, chars: seq<Char>,
                  kernings: seq<Kerning>): seq<Byte> {
    BMF + [3] +
    Put(1, 1, Put(|info.name| + 15, 4, PutInfo(info,
    Put(2, 1, Put(15, 4, PutCommon(common,
    Put(3, 1, Put(|pages| * length, 4, PutNames(pages,
    Put(4, 1, Put(|chars| * 20, 4, PutChars(chars,
    Put(5, 1, Put(|kernings| * 10, 4, PutKernings(kernings, [])))))))))))))))
  }

  function CharMap(chars: seq<Char>): map<nat, Char> {
    if chars == [] then map[] else CharMap(chars[..|chars| - 1])[chars[|chars| - 1].id := chars[|chars| - 1]]
  }
}
