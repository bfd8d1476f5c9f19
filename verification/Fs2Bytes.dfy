/** Structures as bytes (kernel/fs2.h:50-103): where each field lies in a block, and
    that a structure stored is the structure read back. */
module Fs2Bytes {
  import opened Fs2Layout

  // ----------------------------------------------------------------- numbers

  predicate IsWord(n: nat) { n < 0x1_0000_0000 }

  predicate IsOctet(n: nat) { n < 0x100 }

  lemma WordsAt(s: seq<nat>, j: nat, rest: seq<Byte>)
    requires j < |s|
    ensures (Words(s) + rest)[4 * j..4 * j + 4] == Word(s[j])
  {
    var t := Words(s) + rest;
    forall q | 0 <= q < 4 ensures t[4 * j + q] == Word(s[j])[q] {
      assert (4 * j + q) / 4 == j && (4 * j + q) % 4 == q;
    }
  }

  lemma Part<T>(s: seq<T>, i: nat, j: nat, a: nat, b: nat)
    requires i <= j <= |s| && a <= b <= j - i
    ensures s[i..j][a..b] == s[i + a..i + b]
  {
    var p, q := s[i..j][a..b], s[i + a..i + b];
    forall k | 0 <= k < b - a ensures p[k] == q[k] {
      assert p[k] == s[i..j][a + k] == s[i + a + k];
    }
  }

  /** Four bytes, the least significant one first, give the number back. */
  lemma NumberOfWord(b: seq<Byte>, i: nat, n: nat)
    requires i + 4 <= |b| && b[i..i + 4] == Word(n) && IsWord(n)
    ensures Number(b, i) == n
  {
    Digits256(n);
    assert b[i] == b[i..i + 4][0] && b[i + 1] == b[i..i + 4][1];
    assert b[i + 2] == b[i..i + 4][2] && b[i + 3] == b[i..i + 4][3];
  }

  lemma Digits256(n: nat)
    requires IsWord(n)
    ensures n == n % 256 + 0x100 * (n / 0x100 % 256) + 0x1_0000 * (n / 0x1_0000 % 256)
                 + 0x100_0000 * (n / 0x100_0000 % 256)
  {
    assert n / 0x1_0000 == n / 0x100 / 0x100 && n / 0x100_0000 == n / 0x1_0000 / 0x100;
  }

  /** The bytes of 258 are 2, 1, 0 and 0. */
  lemma WordExample()
    ensures Word(258) == [2, 1, 0, 0] && Number([2, 1, 0, 0], 0) == 258
  {
  }

  // ----------------------------------------------------------------- entries

  predicate IsText(s: string) { forall j :: 0 <= j < |s| ==> IsOctet(s[j] as int) }

  predicate EntriesFit(es: seq<DirEntry>) {
    |es| == 128 && NamesOk(es) && forall k :: 0 <= k < 128 ==> IsWord(es[k].inodeIndex) && IsText(es[k].name)
  }

  /** Entry k takes the 32 bytes from 32 k on: its inode, then its name. */
  lemma EntryBytes(es: seq<DirEntry>, k: nat)
    requires |es| == 128 && NamesOk(es) && k < 128
    ensures BytesOf(DirBlock(es))[32 * k..32 * k + 4] == Word(es[k].inodeIndex)
    ensures BytesOf(DirBlock(es))[32 * k + 4..32 * k + 32] == Codes(es[k].name)
  {
    hide Word, Codes, BytesOf;
    var b := BytesOf(DirBlock(es));
    EntryStart(es, k);
    Part(b, 32 * k, 32 * k + 32, 0, 4);
    Part(b, 32 * k, 32 * k + 32, 4, 32);
    assert RawEntry(es[k])[0..4] == Word(es[k].inodeIndex) && RawEntry(es[k])[4..32] == Codes(es[k].name);
  }

  lemma EntryStart(es: seq<DirEntry>, k: nat)
    requires |es| == 128 && NamesOk(es) && k < 128
    ensures BytesOf(DirBlock(es))[32 * k..32 * k + 32] == RawEntry(es[k])
  {
    hide RawEntry;
    var b := BytesOf(DirBlock(es));
    forall j | 0 <= j < 32 ensures b[32 * k + j] == RawEntry(es[k])[j] {
      assert (32 * k + j) / 32 == k && (32 * k + j) % 32 == j;
    }
  }

  lemma CodesBack(s: string)
    requires IsText(s)
    ensures Chars(Codes(s)) == s
  {
  }

  /** Directory entries read out of the bytes they were stored as. */
  lemma EntriesRoundTrip(es: seq<DirEntry>)
    requires EntriesFit(es)
    ensures EntriesOf(DataBlock(BytesOf(DirBlock(es)))) == es
  {
    hide BytesOf, Word, Codes, Chars, Number;
    var b := BytesOf(DirBlock(es));
    assert BytesOf(DataBlock(b)) == b by { DataIsBytes(b); }
    forall k | 0 <= k < 128 ensures EntryIn(b, k) == es[k] {
      EntryBytes(es, k);
      NumberOfWord(b, 32 * k, es[k].inodeIndex);
      CodesBack(es[k].name);
    }
  }

  lemma DataIsBytes(b: seq<Byte>)
    requires |b| == 4096
    ensures BytesOf(DataBlock(b)) == b
  {
  }

  // ------------------------------------------------------------------ inodes

  predicate NodeFits(nd: INode) {
    && TableShape(nd) && IsOctet(nd.fperm) && IsWord(nd.eof) && IsWord(nd.iparent)
    && (forall j :: 0 <= j < 23 ==> IsOctet(nd.regLen[j]))
    && forall j :: 0 <= j < 23 ==> IsWord(nd.regStart[j])
  }

  predicate NodesFit(ns: seq<INode>) { |ns| == 32 && forall k :: 0 <= k < 32 ==> NodeFits(ns[k]) }

  /** Where the fields of inode k lie in its 128 bytes. */
  lemma NodeBytes(ns: seq<INode>, k: nat)
    requires NodesFit(ns) && k < 32
    ensures var b, i, nd := BytesOf(InodeBlock(ns)), 128 * k, ns[k];
            && b[i] == (if nd.ftype.Dir? then 0 else 1) && b[i + 1] == nd.fperm
            && b[i + 5..i + 28] == Octets(nd.regLen)
            && b[i + 28..i + 32] == Word(nd.eof) && b[i + 32..i + 36] == Word(nd.iparent)
            && b[i + 36..i + 128] == Words(nd.regStart)
  {
    hide Word, Words, Octets, BytesOf, RawNode;
    NodeAt(ns, k);
    RawNodeParts(ns[k], BytesOf(InodeBlock(ns)), 128 * k);
  }

  lemma NodeAt(ns: seq<INode>, k: nat)
    requires |ns| == 32 && (forall i :: 0 <= i < 32 ==> TableShape(ns[i])) && k < 32
    ensures BytesOf(InodeBlock(ns))[128 * k..128 * k + 128] == RawNode(ns[k])
  {
    hide RawNode;
    var b := BytesOf(InodeBlock(ns));
    forall j | 0 <= j < 128 ensures b[128 * k + j] == RawNode(ns[k])[j] {
      assert (128 * k + j) / 128 == k && (128 * k + j) % 128 == j;
    }
  }

  lemma RawNodeParts(nd: INode, b: seq<Byte>, i: nat)
    requires TableShape(nd) && IsOctet(nd.fperm) && i + 128 <= |b| && b[i..i + 128] == RawNode(nd)
    ensures b[i] == (if nd.ftype.Dir? then 0 else 1) && b[i + 1] == nd.fperm
    ensures b[i + 5..i + 28] == Octets(nd.regLen)
    ensures b[i + 28..i + 32] == Word(nd.eof) && b[i + 32..i + 36] == Word(nd.iparent)
    ensures b[i + 36..i + 128] == Words(nd.regStart)
  {
    hide Word, Words, Octets;
    var r := RawNode(nd);
    assert r[5..28] == Octets(nd.regLen) && r[28..32] == Word(nd.eof) && r[32..36] == Word(nd.iparent);
    assert r[36..128] == Words(nd.regStart);
    Part(b, i, i + 128, 5, 28);
    Part(b, i, i + 128, 28, 32);
    Part(b, i, i + 128, 32, 36);
    Part(b, i, i + 128, 36, 128);
    assert b[i] == b[i..i + 128][0] && b[i + 1] == b[i..i + 128][1];
  }

  lemma NumbersOfWords(b: seq<Byte>, i: nat, s: seq<nat>)
    requires i + 4 * |s| <= |b| && b[i..i + 4 * |s|] == Words(s) && forall j :: 0 <= j < |s| ==> IsWord(s[j])
    ensures Numbers(b, i, |s|) == s
  {
    hide Word, Words, Number;
    forall j | 0 <= j < |s| ensures Number(b, i + 4 * j) == s[j] {
      WordsAt(s, j, []);
      assert Words(s) + [] == Words(s);
      Part(b, i, i + 4 * |s|, 4 * j, 4 * j + 4);
      NumberOfWord(b, i + 4 * j, s[j]);
    }
  }

  lemma OctetsBack(s: seq<nat>)
    requires forall j :: 0 <= j < |s| ==> IsOctet(s[j])
    ensures forall j :: 0 <= j < |s| ==> Octets(s)[j] == s[j]
  {
  }

  /** Inodes read out of the bytes they were stored as. */
  lemma InodesRoundTrip(ns: seq<INode>)
    requires NodesFit(ns)
    ensures InodesOf(DataBlock(BytesOf(InodeBlock(ns)))) == ns
  {
    hide BytesOf, Number, Numbers, Octets, Words, Word;
    var b := BytesOf(InodeBlock(ns));
    DataIsBytes(b);
    forall k | 0 <= k < 32 ensures NodeIn(b, k) == ns[k] {
      NodeBack(b, 128 * k, ns, k);
    }
  }

  lemma NodeBack(b: seq<Byte>, i: nat, ns: seq<INode>, k: nat)
    requires NodesFit(ns) && k < 32 && b == BytesOf(InodeBlock(ns)) && i == 128 * k
    ensures NodeIn(b, k) == ns[k]
  {
    hide BytesOf, Number, Numbers, Octets, Words, Word;
    var nd := ns[k];
    NodeBytes(ns, k);
    NumberOfWord(b, i + 28, nd.eof);
    NumberOfWord(b, i + 32, nd.iparent);
    NumbersOfWords(b, i + 36, nd.regStart);
    OctetsBack(nd.regLen);
    forall j | 0 <= j < 23 ensures b[i + 5 + j] == nd.regLen[j] {
      assert b[i + 5 + j] == b[i + 5..i + 28][j];
    }
  }

  // ------------------------------------------------------------------ header

  predicate HeaderFits(h: HBlock) {
    && HeaderShape(h) && IsText(h.ident) && IsOctet(h.defaultPerm)
    && IsOctet(h.iregLen) && IsOctet(h.fregLen) && IsOctet(h.dregLen)
    && IsWord(h.nblocks) && IsWord(h.nextInode) && IsWord(h.nextBlock) && h.separator < 0x1_0000
    && (forall j :: 0 <= j < 800 ==> IsOctet(h.regLen[j]))
    && forall j :: 0 <= j < 800 ==> IsWord(h.regStart[j])
  }

  /** Where the fields of the header lie. */
  lemma HeaderBytes(h: HBlock)
    requires HeaderFits(h)
    ensures var b := BytesOf(HeaderBlock(h));
            && b[..8] == Codes(h.ident)
            && b[8] == h.defaultPerm && b[9] == h.iregLen && b[10] == h.fregLen && b[11] == h.dregLen
            && b[12..16] == Word(h.nblocks) && b[16..20] == Word(h.nextInode) && b[20..24] == Word(h.nextBlock)
            && b[24..94] == Blank(70)
            && b[94] == h.separator % 256 && b[95] == h.separator / 256
            && b[96..3296] == Words(h.regStart) && b[3296..] == Octets(h.regLen)
  {
    hide Word, Words, Octets, Codes, Blank;
    var b, f := BytesOf(HeaderBlock(h)), RawFront(h);
    assert b == f + Words(h.regStart) + Octets(h.regLen);
    assert b[96..3296] == Words(h.regStart) && b[3296..] == Octets(h.regLen) && b[..96] == f;
    FrontParts(h, b);
  }

  lemma FrontParts(h: HBlock, b: seq<Byte>)
    requires HeaderFits(h) && |b| == 4096 && b[..96] == RawFront(h)
    ensures b[..8] == Codes(h.ident)
    ensures b[8] == h.defaultPerm && b[9] == h.iregLen && b[10] == h.fregLen && b[11] == h.dregLen
    ensures b[12..16] == Word(h.nblocks) && b[16..20] == Word(h.nextInode) && b[20..24] == Word(h.nextBlock)
    ensures b[24..94] == Blank(70) && b[94] == h.separator % 256 && b[95] == h.separator / 256
  {
    hide Word, Codes, Blank;
    var f := RawFront(h);
    assert f[..8] == Codes(h.ident) && f[12..16] == Word(h.nblocks);
    assert f[16..20] == Word(h.nextInode) && f[20..24] == Word(h.nextBlock) && f[24..94] == Blank(70);
    assert b[..8] == b[..96][..8] && b[12..16] == b[..96][12..16] && b[16..20] == b[..96][16..20];
    assert b[20..24] == b[..96][20..24] && b[24..94] == b[..96][24..94];
    assert b[8] == b[..96][8] && b[9] == b[..96][9] && b[10] == b[..96][10] && b[11] == b[..96][11];
    assert b[94] == b[..96][94] && b[95] == b[..96][95];
  }

  /** The header read out of the bytes it was stored as. */
  lemma HeaderRoundTrip(h: HBlock)
    requires HeaderFits(h)
    ensures HeaderOf(DataBlock(BytesOf(HeaderBlock(h)))) == h
  {
    hide BytesOf, Number, Numbers, Octets, Words, Word, Codes, Chars, Blank;
    var b := BytesOf(HeaderBlock(h));
    DataIsBytes(b);
    HeaderBytes(h);
    CodesBack(h.ident);
    NumberOfWord(b, 12, h.nblocks);
    NumberOfWord(b, 16, h.nextInode);
    NumberOfWord(b, 20, h.nextBlock);
    NumbersOfWords(b, 96, h.regStart);
    OctetsBack(h.regLen);
  }
}
