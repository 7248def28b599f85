/** The walk over a ustar archive that finds a file by name. */
module Ustar {
  import opened Bytes
  import opened CStrings
  import opened Options
  import opened Periods

  const MAGIC: seq<Byte> := [0x75, 0x73, 0x74, 0x61, 0x72]

  const SLASH: Byte := 0x2f

  /** A file: the name and prefix fields of its header, and its data; rest is what follows a name
      of 100 bytes in the header, up to the next NUL. */
  datatype File = File(name: seq<Byte>, rest: seq<Byte>, prefix: seq<Byte>, data: seq<Byte>)

  function Digit(d: nat): Byte
    requires d < 8
  {
    [0x30, 0x31, 0x32, 0x33, 0x34, 0x35, 0x36, 0x37][d]
  }

  /** n printed with k octal digits. */
  function Octal(n: nat, k: nat): (s: seq<Byte>)
    ensures |s| == k
    decreases k
  {
    if k == 0 then [] else Octal(n / 8, k - 1) + [Digit(n % 8)]
  }

  /** What oct2bin computes of any bytes. */
  function OctValue(s: seq<Byte>): int {
    if s == [] then 0 else OctValue(s[..|s| - 1]) * 8 + (s[|s| - 1] as int - 0x30)
  }

  function Pow8(k: nat): nat {
    if k == 0 then 1 else 8 * Pow8(k - 1)
  }

  lemma DigitValue(d: nat)
    requires d < 8
    ensures Digit(d) as int - 0x30 == d
  {
  }

  /** oct2bin undoes octal printing. */
  lemma {:induction false} OctalRoundTrip(n: nat, k: nat)
    requires n < Pow8(k)
    ensures OctValue(Octal(n, k)) == n
    decreases k
  {
    if k > 0 {
      OctalRoundTrip(n / 8, k - 1);
      DigitValue(n % 8);
      assert Octal(n, k)[..k - 1] == Octal(n / 8, k - 1);
    }
  }

  ghost predicate OctalDigits(s: seq<Byte>) {
    forall i | 0 <= i < |s| :: 0x30 <= s[i] as int < 0x38
  }

  lemma {:induction false} OctalIsDigits(n: nat, k: nat)
    ensures OctalDigits(Octal(n, k))
    decreases k
  {
    if k > 0 {
      OctalIsDigits(n / 8, k - 1);
      DigitValue(n % 8);
    }
  }

  /** Prefixes of a number in octal are smaller numbers, so no intermediate value overflows. */
  lemma {:induction false} PrefixSmaller(s: seq<Byte>, i: nat)
    requires OctalDigits(s) && i <= |s|
    ensures 0 <= OctValue(s[..i]) <= OctValue(s)
    decreases |s|
  {
    if s == [] || i < |s| {
      if s != [] {
        PrefixSmaller(s[..|s| - 1], i);
        assert s[..|s| - 1][..i] == s[..i];
      }
    } else {
      PrefixSmaller(s[..|s| - 1], |s| - 1);
      assert s[..|s| - 1][..|s| - 1] == s[..|s| - 1];
      assert s[..i] == s;
    }
  }

  /** oct2bin. */
  method Oct2Bin(mem: seq<Byte>, at: nat, size: nat) returns (n: int)
    requires at + size <= |mem|
    ensures n == OctValue(mem[at..at + size])
  {
    n := 0;
    var c := 0;
    while c < size
      invariant c <= size && n == OctValue(mem[at..at + c])
    {
      n := n * 8;
      n := n + (mem[at + c] as int - 0x30);
      assert mem[at..at + c + 1][..c] == mem[at..at + c];
      c := c + 1;
    }
  }

  /** The step to the next header. */
  function Advance(filesize: int): int {
    ((filesize + 511) / 512 + 1) * 512
  }

  /** Bytes of the archive a file takes: its header, and its data padded to whole blocks. */
  function Extent(size: nat): nat {
    512 + (size + 511) / 512 * 512
  }

  /** The step covers the header and the padded data exactly. */
  lemma AdvanceIsExtent(size: nat)
    ensures Advance(size) == Extent(size) && size + 512 <= Extent(size) < size + 1024
  {
  }

  /** The C string at the start of a header. A name that fills its field is not terminated there,
      so the mode after it is read on. */
  function Key(f: File): seq<Byte> {
    f.name + f.rest
  }

  /** The path name that the format gives the file. */
  function PathName(f: File): seq<Byte> {
    if f.prefix == [] then f.name else f.prefix + [SLASH] + f.name
  }

  ghost predicate WellNamed(f: File) {
    |f.name| <= 100 && (f.rest == [] <==> |f.name| < 100) && |f.prefix| <= 155
  }

  /** The name is at p, and the C string there is the key. */
  ghost predicate KeyAt(mem: seq<Byte>, p: nat, key: seq<Byte>) {
    NulFree(key) && Agree(mem, p, key + [0], 0, |key| + 1)
  }

  /** The prefix field at p: 155 bytes, ended by a NUL if there is room. */
  ghost predicate PrefixAt(mem: seq<Byte>, p: nat, prefix: seq<Byte>) {
    NulFree(prefix) && (if |prefix| < 155 then Agree(mem, p + 345, prefix + [0], 0, |prefix| + 1)
                        else Agree(mem, p + 345, prefix, 0, |prefix|))
  }

  /** The five letters ustar stand at byte 257 of the header. */
  ghost predicate MagicAt(mem: seq<Byte>, p: nat) {
    p + 262 <= |mem| && mem[p + 257] == 0x75 && mem[p + 258] == 0x73 && mem[p + 259] == 0x74 && mem[p + 260] == 0x61
    && mem[p + 261] == 0x72
  }

  lemma MagicIs(mem: seq<Byte>, p: nat)
    requires p + 262 <= |mem|
    ensures MagicAt(mem, p) <==> Agree(mem, p + 257, MAGIC, 0, 5)
  {
    var m := mem[p + 257..p + 262];
    assert m[0] == mem[p + 257] && m[1] == mem[p + 258] && m[2] == mem[p + 259];
    assert m[3] == mem[p + 260] && m[4] == mem[p + 261];
    AgreeIsEqual(mem, p + 257, MAGIC);
  }

  lemma AgreeIsEqual(mem: seq<Byte>, o: nat, s: seq<Byte>)
    requires o + |s| <= |mem|
    ensures Agree(mem, o, s, 0, |s|) <==> mem[o..o + |s|] == s
  {
    if Agree(mem, o, s, 0, |s|) {
      forall k | 0 <= k < |s| ensures mem[o..o + |s|][k] == s[k] {
        assert mem[o + k] == s[0 + k];
      }
    }
  }

  /** The size field at p holds eleven octal digits that stand for size. */
  ghost predicate SizeAt(mem: seq<Byte>, p: nat, size: nat) {
    p + 0x87 <= |mem| && OctalDigits(mem[p + 0x7c..p + 0x87]) && OctValue(mem[p + 0x7c..p + 0x87]) == size
  }

  /** Printing a size below 8 GiB into the field makes it hold that size. */
  lemma PrintedSize(mem: seq<Byte>, p: nat, size: nat, k: nat)
    requires p + 0x87 <= |mem| && k == 11 && size < Pow8(k) && mem[p + 0x7c..p + 0x87] == Octal(size, k)
    ensures SizeAt(mem, p, size)
  {
    OctalRoundTrip(size, k);
    OctalIsDigits(size, k);
  }

  /** A file is stored at p: a ustar header and the data after it, with an extent that fits in
      an int. */
  ghost predicate StoredAt(mem: seq<Byte>, p: nat, f: File) {
    && p + Extent(|f.data|) <= |mem| && Extent(|f.data|) <= 0x7fffffff
    && WellNamed(f) && KeyAt(mem, p, Key(f)) && SizeAt(mem, p, |f.data|) && MagicAt(mem, p)
    && PrefixAt(mem, p, f.prefix)
    && Agree(mem, p + 512, f.data, 0, |f.data|)
  }

  /** The files lie one after the other from p on, and no header follows the last. */
  ghost predicate Laid(mem: seq<Byte>, p: nat, files: seq<File>)
    decreases |files|
  {
    if files == [] then p + 262 <= |mem| && !MagicAt(mem, p)
    else StoredAt(mem, p, files[0]) && Laid(mem, p + Extent(|files[0].data|), files[1..])
  }

  /** The first file with that key, which is what tar_lookup compares. */
  ghost function Find(files: seq<File>, key: seq<Byte>): (r: Option<File>)
    ensures r.Some? ==> r.value in files && Key(r.value) == key
    ensures r.None? ==> forall f | f in files :: Key(f) != key
  {
    if files == [] then None
    else if Key(files[0]) == key then Some(files[0])
    else Find(files[1..], key)
  }

  /** The first file with that path name. */
  ghost function FindName(files: seq<File>, name: seq<Byte>): (r: Option<File>)
    ensures r.Some? ==> r.value in files && PathName(r.value) == name
    ensures r.None? ==> forall f | f in files :: PathName(f) != name
  {
    if files == [] then None
    else if PathName(files[0]) == name then Some(files[0])
    else FindName(files[1..], name)
  }

  /** The first file that has it as its key or as its path name. */
  ghost function FirstCalled(files: seq<File>, name: seq<Byte>): Option<File> {
    if files == [] then None
    else if Key(files[0]) == name || PathName(files[0]) == name then Some(files[0])
    else FirstCalled(files[1..], name)
  }

  /** The path name fits in the name field with its NUL, and the prefix is not used. */
  predicate Plain(f: File) {
    f.prefix == [] && |f.name| < 100
  }

  /** The numeric fields after a name of 100 bytes hold no slash. */
  predicate NumbersFollow(f: File) {
    SLASH !in f.rest
  }

  ghost function Slashes(s: seq<Byte>): nat {
    if s == [] then 0 else Slashes(s[..|s| - 1]) + if s[|s| - 1] == SLASH then 1 else 0
  }

  lemma {:induction false} SlashesAdd(s: seq<Byte>, t: seq<Byte>)
    ensures Slashes(s + t) == Slashes(s) + Slashes(t)
    ensures SLASH !in t ==> Slashes(t) == 0
    decreases |t|
  {
    if t == [] {
      assert s + t == s;
    } else {
      SlashesAdd(s, t[..|t| - 1]);
      assert (s + t)[..|s + t| - 1] == s + t[..|t| - 1];
    }
  }

  /** A file's key is its path name exactly if it is plain: with a prefix, the path name has a
      slash more than the name, and the key has not. */
  lemma PlainIff(f: File)
    requires WellNamed(f) && NumbersFollow(f)
    ensures Key(f) == PathName(f) <==> Plain(f)
  {
    if f.prefix != [] {
      SlashesAdd(f.prefix + [SLASH], f.name);
      SlashesAdd(f.prefix, [SLASH]);
      SlashesAdd(f.name, f.rest);
      assert Slashes(PathName(f)) > Slashes(Key(f));
    }
  }

  /** tar_lookup finds the file of that path name exactly if the first file concerned, by key or by
      path name, is plain. */
  lemma {:induction false} FoundByNameIff(files: seq<File>, name: seq<Byte>)
    requires forall f | f in files :: WellNamed(f) && NumbersFollow(f)
    ensures Find(files, name) == FindName(files, name) <==>
            var first := FirstCalled(files, name); first.None? || Plain(first.value)
  {
    if files != [] {
      PlainIff(files[0]);
      FoundByNameIff(files[1..], name);
    }
  }

  /** A file whose name has 100 bytes is not found under it. */
  lemma LongNameNotFound(f: File)
    requires f == File(seq(100, _ => 0x61), [0x30], [], [])
    ensures WellNamed(f) && Find([f], PathName(f)) == None && FindName([f], PathName(f)) == Some(f)
  {
    assert |Key(f)| == 101;
  }

  /** The file d/x stored with the prefix d is found as x, not as d/x. */
  lemma PrefixedNotFound(f: File)
    requires f == File([0x78], [], [0x64], [])
    ensures WellNamed(f) && PathName(f) == [0x64, SLASH, 0x78] && Find([f], PathName(f)) == None
    ensures FindName([f], PathName(f)) == Some(f) && FindName([f], f.name) == None && Find([f], f.name) == Some(f)
  {
    assert Key(f) == [0x78];
    assert |PathName(f)| == 3;
  }

  /** memcmp(ptr, filename, strlen(filename) + 1), which stops at the first difference. */
  method SameName(mem: seq<Byte>, p: nat, filename: seq<Byte>, ghost name: seq<Byte>) returns (same: bool)
    requires KeyAt(mem, p, name) && NulFree(filename)
    ensures same <==> name == filename
  {
    ghost var stored := name + [0];
    var i := 0;
    while i < |filename| + 1
      invariant i <= |filename| + 1 && i <= |stored|
      invariant forall k | 0 <= k < i :: stored[k] == At(filename, k)
      invariant i == |stored| ==> |filename| == |name|
    {
      assert i < |stored|;
      assert mem[p + i] == stored[i];
      if mem[p + i] != At(filename, i) {
        return false;
      }
      i := i + 1;
    }
    assert stored[|filename|] == 0;
    assert |name| == |filename| && forall k | 0 <= k < |name| :: name[k] == stored[k];
    return true;
  }

  /** What tar_lookup returns: size and place of the file, or 0 and nothing. */
  ghost predicate Returns(mem: seq<Byte>, file: Option<File>, size: int, out: Option<nat>) {
    match file
    case None => size == 0 && out == None
    case Some(f) => size == |f.data| && out.Some? && Agree(mem, out.value, f.data, 0, size)
  }

  /** The header of the first file left is at ptr, and filesize has been read from it. */
  ghost predicate HeaderRead(mem: seq<Byte>, ptr: nat, left: seq<File>, filesize: int) {
    && left != [] && filesize == |left[0].data| && KeyAt(mem, ptr, Key(left[0]))
    && Agree(mem, ptr + 512, left[0].data, 0, filesize)
    && Advance(filesize) > 0 && Laid(mem, ptr + Advance(filesize), left[1..])
  }

  /** The magic test and the size of the header at ptr. */
  method ReadHeader(mem: seq<Byte>, ptr: nat, ghost left: seq<File>) returns (header: bool, filesize: int)
    requires Laid(mem, ptr, left) == true
    ensures (header <==> left != []) && (header ==> HeaderRead(mem, ptr, left, filesize) == true)
  {
    HeaderIffLeft(mem, ptr, left);
    var magic := MemCmp(mem, ptr + 257, MAGIC, 0, 5);
    if magic != 0 {
      return false, 0;
    }
    filesize := Oct2Bin(mem, ptr + 0x7c, 11);
    return true, filesize;
  }

  lemma HeaderGives(mem: seq<Byte>, ptr: nat, left: seq<File>, filesize: int, filename: seq<Byte>)
    requires HeaderRead(mem, ptr, left, filesize)
    ensures left != [] && KeyAt(mem, ptr, Key(left[0])) == true
    ensures Advance(filesize) > 0 && Laid(mem, ptr + Advance(filesize), left[1..]) == true
    ensures if Key(left[0]) == filename then Returns(mem, Find(left, filename), filesize, Some(ptr + 512)) == true
            else Find(left, filename) == Find(left[1..], filename)
  {
  }

  /** tar_lookup: the size and data of the first entry of that name, or 0 if there is none; which
      names are found is what FoundByNameIff says. */
  method TarLookup(mem: seq<Byte>, archive: nat, filename: seq<Byte>, ghost files: seq<File>)
    returns (size: int, out: Option<nat>)
    requires Laid(mem, archive, files) == true && NulFree(filename)
    ensures Returns(mem, Find(files, filename), size, out) == true
  {
    var ptr: nat := archive;
    ghost var left := files;
    var header, filesize := ReadHeader(mem, ptr, left);
    while header
      invariant (header <==> left != []) && (header ==> HeaderRead(mem, ptr, left, filesize) == true)
      invariant Find(left, filename) == Find(files, filename)
      decreases |left|
    {
      HeaderGives(mem, ptr, left, filesize, filename);
      var same := SameName(mem, ptr, filename, Key(left[0]));
      if same {
        return filesize, Some(ptr + 512);
      }
      ptr := ptr + Advance(filesize);
      left := left[1..];
      header, filesize := ReadHeader(mem, ptr, left);
    }
    return 0, None;
  }

  /** A header is at p exactly if files are left; then its size field reads as the data's length
      and the next header is where the walk goes. */
  lemma HeaderIffLeft(mem: seq<Byte>, p: nat, files: seq<File>)
    requires Laid(mem, p, files)
    ensures p + 262 <= |mem| && (Agree(mem, p + 257, MAGIC, 0, 5) <==> files != [])
    ensures files != [] ==>
      && KeyAt(mem, p, Key(files[0])) && Agree(mem, p + 512, files[0].data, 0, |files[0].data|)
      && OctValue(mem[p + 0x7c..p + 0x87]) == |files[0].data|
      && Advance(|files[0].data|) > 0 && Laid(mem, p + Advance(|files[0].data|), files[1..])
  {
    MagicIs(mem, p);
    if files != [] {
      AdvanceIsExtent(|files[0].data|);
    }
  }

  /** No step of the size or of the advance leaves the range of an int. */
  lemma NoOverflow(mem: seq<Byte>, p: nat, f: File, i: nat)
    requires StoredAt(mem, p, f) && i <= 11
    ensures 0 <= OctValue(mem[p + 0x7c..p + 0x7c + i]) <= 0x7fffffff
    ensures |f.data| + 511 <= 0x7fffffff && Advance(|f.data|) <= 0x7fffffff
  {
    AdvanceIsExtent(|f.data|);
    PrefixSmaller(mem[p + 0x7c..p + 0x87], i);
    assert mem[p + 0x7c..p + 0x87][..i] == mem[p + 0x7c..p + 0x7c + i];
  }
}
