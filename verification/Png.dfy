/** PixelDumpSupport.cpp: splicing a checksum comment into a PNG file while writing it out. */
module Png {
  import opened Wrappers
  import opened Binary
  import opened CyclicRedundancyCheck
  import opened CrcDivision
  import opened CrcTable

  // ----- The format: sections 3.1, 3.2, 4.1.1 and 4.2.7 of RFC 2083 -----

  const SIGNATURE: seq<Byte> := [137, 80, 78, 71, 13, 10, 26, 10]
  const IHDR: seq<Byte> := [73, 72, 68, 82]
  const TEXT: seq<Byte> := [116, 69, 88, 116]
  const KEYWORD: seq<Byte> := [99, 104, 101, 99, 107, 115, 117, 109]

  /** The constants by their names and as the format spells them. */
  lemma Spelling()
    ensures SIGNATURE == [137] + Ascii("PNG\r\n") + [26] + Ascii("\n")
    ensures IHDR == Ascii("IHDR") && TEXT == Ascii("tEXt") && KEYWORD == Ascii("checksum")
  {
  }

  datatype Chunk = Chunk(kind: seq<Byte>, data: seq<Byte>)

  /** Four bytes in network byte order. */
  function ReadUnsigned(b: seq<Byte>): nat
    requires |b| == 4
  {
    0x100_0000 * (b[0] as int) + 0x1_0000 * (b[1] as int) + 0x100 * (b[2] as int) + b[3]
  }

  /** The bytes of a word in network byte order. */
  function WordBytes(w: Word): (r: seq<Byte>)
    ensures |r| == 4
  {
    [ByteOf(w[24..32]), ByteOf(w[16..24]), ByteOf(w[8..16]), ByteOf(w[..8])]
  }

  /** The chunk at the start of `s` and its length in bytes: length, type, data and the CRC of
      type and data. */
  function ParseChunk(s: seq<Byte>): (r: Option<(Chunk, nat)>)
    ensures r.Some? ==> 12 <= r.value.1 <= |s|
  {
    if |s| < 12 then None
    else
      var n := ReadUnsigned(s[..4]);
      if n >= 0x8000_0000 || |s| < 12 + n then None
      else if ReadUnsigned(s[8 + n..12 + n]) != Number(Crc(s[4..8 + n])) then None
      else Some((Chunk(s[4..8], s[8..8 + n]), 12 + n))
  }

  function ParseChunks(s: seq<Byte>): Option<seq<Chunk>>
    decreases |s|
  {
    if s == [] then Some([])
    else match ParseChunk(s)
      case None => None
      case Some((c, n)) =>
        match ParseChunks(s[n..])
        case None => None
        case Some(rest) => Some([c] + rest)
  }

  /** A signature and a list of chunks that starts with a header chunk of 13 bytes. */
  function ParsePng(s: seq<Byte>): Option<seq<Chunk>> {
    if |s| < 8 || s[..8] != SIGNATURE then None
    else match ParseChunks(s[8..])
      case None => None
      case Some(chunks) =>
        if chunks != [] && chunks[0].kind == IHDR && |chunks[0].data| == 13 then Some(chunks) else None
  }

  /** Both directions use the same byte order. */
  lemma ReadWordBytes(w: Word)
    ensures ReadUnsigned(WordBytes(w)) == Number(w)
  {
    var a, b, c, d := w[..8], w[8..16], w[16..24], w[24..32];
    assert w == a + (b + (c + d));
    NumberOfBits(c, d);
    NumberOfBits(b, c + d);
    NumberOfBits(a, b + (c + d));
  }

  lemma NumberOfBits(bits: seq<bool>, rest: seq<bool>)
    requires |bits| == 8
    ensures Number(bits + rest) == ByteOf(bits) + 0x100 * Number(rest)
  {
    NumberAppend(bits, rest);
    Power2Of8();
  }

  lemma NumberInjective(v: Word, w: Word)
    requires Number(v) == Number(w)
    ensures v == w
  {
    DigitsOfNumber(v);
    DigitsOfNumber(w);
  }

  /** A chunk whose type and data are damaged within four successive bytes no longer parses. */
  lemma DamageDetected(
    s: seq<Byte>, t: seq<Byte>, n: nat, head: seq<Byte>, w: seq<Byte>, w': seq<Byte>, tail: seq<Byte>)
    requires ParseChunk(s).Some? && n == ReadUnsigned(s[..4]) && |t| == |s| && t[..4] == s[..4]
    requires t[8 + n..12 + n] == s[8 + n..12 + n]
    requires s[4..8 + n] == head + w + tail && t[4..8 + n] == head + w' + tail
    requires |w| == |w'| <= 4 && w != w'
    ensures ParseChunk(t).None?
  {
    FourBytesDetected(head, w, w', tail);
    if Number(Crc(head + w + tail)) == Number(Crc(head + w' + tail)) {
      NumberInjective(Crc(head + w + tail), Crc(head + w' + tail));
    }
  }

  // ----- The comment chunk -----

  function CommentData(checksum: seq<Byte>): seq<Byte>
    requires |checksum| >= 32
  {
    KEYWORD + [0] + checksum[..32]
  }

  /** The keyword and the text of a tEXt chunk: what stands before and behind the first zero. */
  function ReadText(data: seq<Byte>): Option<(seq<Byte>, seq<Byte>)> {
    if data == [] then None
    else if data[0] == 0 then Some(([], data[1..]))
    else match ReadText(data[1..])
      case None => None
      case Some((key, text)) => Some(([data[0]] + key, text))
  }

  lemma {:induction false} KeyThenText(key: seq<Byte>, text: seq<Byte>)
    requires 0 !in key
    ensures ReadText(key + [0] + text) == Some((key, text))
    decreases key
  {
    var data := key + [0] + text;
    if key == [] {
      assert data[1..] == text;
    } else {
      assert data[1..] == key[1..] + [0] + text && data[0] == key[0] && key[0] in key;
      KeyThenText(key[1..], text);
      assert [key[0]] + key[1..] == key;
    }
  }

  /** A tEXt chunk with the keyword "checksum". */
  predicate IsComment(c: Chunk, text: seq<Byte>) {
    c.kind == Ascii("tEXt") && ReadText(c.data) == Some((Ascii("checksum"), text))
  }

  lemma CommentReads(checksum: seq<Byte>)
    requires |checksum| >= 32
    ensures IsComment(Chunk(TEXT, CommentData(checksum)), checksum[..32])
  {
    Spelling();
    KeyThenText(KEYWORD, checksum[..32]);
  }

  /** What `convertChecksumToPNGComment` appends. */
  function Comment(checksum: seq<Byte>): seq<Byte>
    requires |checksum| >= 32
  {
    [0, 0, 0, 0x29] + TEXT + CommentData(checksum) + WordBytes(Crc(TEXT + CommentData(checksum)))
  }

  lemma Layout(length: seq<Byte>, kind: seq<Byte>, data: seq<Byte>, crc: seq<Byte>, rest: seq<Byte>, s: seq<Byte>)
    requires s == length + kind + data + crc + rest && |length| == |kind| == |crc| == 4
    ensures var n := |data|;
            && |s| >= 12 + n && s[..4] == length && s[4..8] == kind && s[8..8 + n] == data
            && s[4..8 + n] == kind + data && s[8 + n..12 + n] == crc
  {
  }

  /** Four bytes of length, the type, the data and the CRC make up a chunk. */
  lemma ChunkParses(length: seq<Byte>, kind: seq<Byte>, data: seq<Byte>, crc: seq<Byte>, rest: seq<Byte>, s: seq<Byte>)
    requires s == length + kind + data + crc + rest && |length| == |kind| == |crc| == 4
    requires ReadUnsigned(length) == |data| < 0x8000_0000 && ReadUnsigned(crc) == Number(Crc(kind + data))
    ensures ParseChunk(s) == Some((Chunk(kind, data), 12 + |data|))
  {
    Layout(length, kind, data, crc, rest, s);
  }

  lemma CommentParses(checksum: seq<Byte>, rest: seq<Byte>)
    requires |checksum| >= 32
    ensures |Comment(checksum)| == 53
    ensures ParseChunk(Comment(checksum) + rest) == Some((Chunk(TEXT, CommentData(checksum)), 53))
  {
    var data := CommentData(checksum);
    var crc := WordBytes(Crc(TEXT + data));
    ReadWordBytes(Crc(TEXT + data));
    ChunkParses([0, 0, 0, 0x29], TEXT, data, crc, rest, Comment(checksum) + rest);
  }

  // ----- Splicing -----

  const HEADER_LENGTH: nat := 33

  function Splice(data: seq<Byte>, comment: seq<Byte>): seq<Byte>
    requires |data| >= HEADER_LENGTH
  {
    data[..HEADER_LENGTH] + comment + data[HEADER_LENGTH..]
  }

  lemma HeaderChunk(s: seq<Byte>)
    requires ParsePng(s).Some?
    ensures |s| >= HEADER_LENGTH
    ensures var chunks := ParsePng(s).value;
            && ParseChunk(s[8..]) == Some((chunks[0], 25))
            && ParseChunks(s[HEADER_LENGTH..]) == Some(chunks[1..])
  {
    var (c, n) := ParseChunk(s[8..]).value;
    assert s[8..][25..] == s[33..];
  }

  /** A chunk parses from its own bytes alone. */
  lemma ParseChunkPrefix(s: seq<Byte>, t: seq<Byte>, n: nat)
    requires ParseChunk(s).Some? && ParseChunk(s).value.1 == n && n <= |t| && s[..n] == t[..n]
    ensures ParseChunk(t) == ParseChunk(s)
  {
    SamePart(s, t, n, 0, 4);
    var m := ReadUnsigned(s[..4]);
    SamePart(s, t, n, 4, 8);
    SamePart(s, t, n, 8, 8 + m);
    SamePart(s, t, n, 4, 8 + m);
    SamePart(s, t, n, 8 + m, 12 + m);
    assert s[0..4] == s[..4] && t[0..4] == t[..4];
  }

  lemma SamePart(s: seq<Byte>, t: seq<Byte>, n: nat, i: nat, j: nat)
    requires i <= j <= n <= |s| && n <= |t| && s[..n] == t[..n]
    ensures s[i..j] == t[i..j]
  {
    assert s[i..j] == s[..n][i..j] && t[i..j] == t[..n][i..j];
  }

  lemma ChunkThenRest(s: seq<Byte>, c: Chunk, n: nat, rest: seq<Chunk>)
    requires ParseChunk(s) == Some((c, n)) && n <= |s| && ParseChunks(s[n..]) == Some(rest)
    ensures ParseChunks(s) == Some([c] + rest)
  {
  }

  lemma SpliceLayout(s: seq<Byte>, comment: seq<Byte>)
    requires |s| >= HEADER_LENGTH
    ensures var t := Splice(s, comment);
            && t[..8] == s[..8] && t[8..][..25] == s[8..][..25]
            && t[8..][25..] == comment + s[HEADER_LENGTH..]
            && (comment + s[HEADER_LENGTH..])[|comment|..] == s[HEADER_LENGTH..]
  {
  }

  /** A chunk put after the header appears there when the file is parsed. */
  lemma SpliceInserts(s: seq<Byte>, bytes: seq<Byte>, c: Chunk)
    requires ParsePng(s).Some? && |s| >= HEADER_LENGTH
    requires ParseChunk(bytes + s[HEADER_LENGTH..]) == Some((c, |bytes|))
    ensures var chunks := ParsePng(s).value;
            ParsePng(Splice(s, bytes)) == Some([chunks[0], c] + chunks[1..])
  {
    HeaderChunk(s);
    var chunks, t, tail := ParsePng(s).value, Splice(s, bytes), s[HEADER_LENGTH..];
    var more := [c] + chunks[1..];
    SpliceLayout(s, bytes);
    ChunkThenRest(bytes + tail, c, |bytes|, chunks[1..]);
    HeaderThenRest(s[8..], t[8..], chunks[0], 25, bytes + tail, more);
    assert [chunks[0]] + more == [chunks[0], c] + chunks[1..];
  }

  /** `t` starts with the first chunk of `s`. */
  lemma HeaderThenRest(s: seq<Byte>, t: seq<Byte>, header: Chunk, n: nat, tail: seq<Byte>, rest: seq<Chunk>)
    requires ParseChunk(s) == Some((header, n)) && n <= |s| && n <= |t| && s[..n] == t[..n]
    requires t[n..] == tail && ParseChunks(tail) == Some(rest)
    ensures ParseChunks(t) == Some([header] + rest)
  {
    ParseChunkPrefix(s, t, n);
    ChunkThenRest(t, header, n, rest);
  }

  /** Every PNG file is printed as a PNG file with the same chunks and the checksum comment
      after the header. */
  lemma SpliceInsertsComment(s: seq<Byte>, checksum: seq<Byte>) returns (c: Chunk)
    requires ParsePng(s).Some? && |checksum| >= 32
    ensures IsComment(c, checksum[..32]) && |s| >= HEADER_LENGTH
    ensures var chunks := ParsePng(s).value;
            ParsePng(Splice(s, Comment(checksum))) == Some([chunks[0], c] + chunks[1..])
  {
    CommentReads(checksum);
    c := Chunk(TEXT, CommentData(checksum));
    HeaderChunk(s);
    CommentParses(checksum, s[HEADER_LENGTH..]);
    SpliceInserts(s, Comment(checksum), Chunk(TEXT, CommentData(checksum)));
  }

  // ----- The code -----

  /** A growing vector of bytes. */
  class ByteVector {
    var bytes: seq<Byte>

    constructor ()
      ensures bytes == []
    {
      bytes := [];
    }

    method AppendInt(number: Word)
      modifies this
      ensures bytes == old(bytes) + WordBytes(number)
      ensures |bytes| == old(|bytes|) + 4 && ReadUnsigned(bytes[old(|bytes|)..]) == Number(number)
    {
      ReadWordBytes(number);
      var offset := |bytes|;
      bytes := bytes + [0, 0, 0, 0];
      bytes := bytes[offset := ByteOf(number[24..32])];
      bytes := bytes[offset + 1 := ByteOf(number[16..24])];
      bytes := bytes[offset + 2 := ByteOf(number[8..16])];
      bytes := bytes[offset + 3 := ByteOf(number[..8])];
      assert bytes[offset..] == WordBytes(number);
    }

    method Append(data: seq<Byte>)
      modifies this
      ensures bytes == old(bytes) + data
    {
      bytes := bytes + data;
    }
  }

  /** `textCommentPrefix`. */
  const COMMENT_PREFIX: seq<Byte> := [0, 0, 0, 0x29] + TEXT + KEYWORD + [0]

  lemma CommentLayout(
    length: seq<Byte>, kind: seq<Byte>, key: seq<Byte>, zero: seq<Byte>, text: seq<Byte>, crc: seq<Byte>)
    requires |length| == 4
    ensures (length + kind + key + zero)[4..] + text == kind + (key + zero + text)
    ensures (length + kind + key + zero) + text + crc == length + kind + (key + zero + text) + crc
  {
  }

  lemma CommentPieces(checksum: seq<Byte>)
    requires |checksum| >= 32
    ensures COMMENT_PREFIX[4..] + checksum[..32] == TEXT + CommentData(checksum)
    ensures COMMENT_PREFIX + checksum[..32] + WordBytes(Crc(TEXT + CommentData(checksum))) == Comment(checksum)
  {
    CommentLayout([0, 0, 0, 0x29], TEXT, KEYWORD, [0], checksum[..32], WordBytes(Crc(TEXT + CommentData(checksum))));
  }

  lemma Assemble(before: seq<Byte>, a: seq<Byte>, b: seq<Byte>, c: seq<Byte>)
    ensures ((before + a) + b) + c == before + (a + b + c)
  {
  }

  method CrcOfBoth(a: seq<Byte>, b: seq<Byte>, computer: CrcComputer) returns (crc: Word)
    requires computer.Valid()
    modifies computer, computer.crcTable
    ensures computer.Valid() && crc == Crc(a + b)
  {
    var dataToCrc := new ByteVector();
    dataToCrc.Append(a);
    dataToCrc.Append(b);
    assert dataToCrc.bytes == a + b by {
      assert [] + a == a;
    }
    crc := computer.ComputeCrc(dataToCrc.bytes);
  }

  /** Appends `prefix` and the checksum, and the CRC of both without the first four bytes. */
  method AppendWithCrc(prefix: seq<Byte>, checksum: seq<Byte>, bytesToAdd: ByteVector, computer: CrcComputer)
    requires |prefix| >= 4 && |checksum| >= 32 && computer.Valid()
    modifies bytesToAdd, computer, computer.crcTable
    ensures computer.Valid()
    ensures bytesToAdd.bytes ==
            old(bytesToAdd.bytes) + (prefix + checksum[..32] + WordBytes(Crc(prefix[4..] + checksum[..32])))
  {
    Assemble(bytesToAdd.bytes, prefix, checksum[..32], WordBytes(Crc(prefix[4..] + checksum[..32])));
    bytesToAdd.Append(prefix);
    bytesToAdd.Append(checksum[..32]);
    var crc := CrcOfBoth(prefix[4..], checksum[..32], computer);
    bytesToAdd.AppendInt(crc);
  }

  method ConvertChecksumToComment(checksum: seq<Byte>, bytesToAdd: ByteVector, computer: CrcComputer)
    requires |checksum| >= 32 && computer.Valid()
    modifies bytesToAdd, computer, computer.crcTable
    ensures computer.Valid()
    ensures bytesToAdd.bytes == old(bytesToAdd.bytes) + Comment(checksum)
  {
    CommentPieces(checksum);
    AppendWithCrc(COMMENT_PREFIX, checksum, bytesToAdd, computer);
  }

  /** Standard output, whose n-th write takes at most `accepts(n)` bytes. */
  class Output {
    var written: seq<Byte>
    var calls: nat
    const accepts: nat -> nat

    constructor (accepts: nat -> nat)
      ensures written == [] && calls == 0 && this.accepts == accepts
    {
      written, calls, this.accepts := [], 0, accepts;
    }

    method Write(data: seq<Byte>) returns (n: nat)
      modifies this
      ensures n == if |data| <= accepts(old(calls)) then |data| else accepts(old(calls))
      ensures written == old(written) + data[..n] && calls == old(calls) + 1
    {
      n := if |data| <= accepts(calls) then |data| else accepts(calls);
      written := written + data[..n];
      calls := calls + 1;
    }
  }

  const BYTES_IN_ONE_CHUNK: nat := 0x8000

  /** The write loop: it writes a prefix of `data`, all of it unless some write falls short. */
  method WriteInChunks(data: seq<Byte>, output: Output) returns (ghost n: nat)
    modifies output
    ensures n <= |data| && output.written == old(output.written) + data[..n]
    ensures (forall k :: output.accepts(k) >= BYTES_IN_ONE_CHUNK) ==> n == |data|
  {
    var pos, remaining := 0, |data|;
    n := 0;
    while remaining > 0
      invariant 0 <= pos <= |data| && pos + remaining == |data| && n == pos
      invariant output.written == old(output.written) + data[..pos]
    {
      var size := if remaining < BYTES_IN_ONE_CHUNK then remaining else BYTES_IN_ONE_CHUNK;
      var written := output.Write(data[pos..pos + size]);
      assert data[..pos] + data[pos..pos + size][..written] == data[..pos + written];
      n := pos + written;
      if written != size {
        break;
      }
      remaining := remaining - written;
      pos := pos + written;
    }
  }

  lemma WrittenIsSplice(before: seq<Byte>, data: seq<Byte>, comment: seq<Byte>, a: nat, b: nat, c: nat)
    requires |data| >= HEADER_LENGTH && a <= HEADER_LENGTH && b <= |comment| && c <= |data| - HEADER_LENGTH
    ensures var w := before + data[..HEADER_LENGTH][..a] + comment[..b] + data[HEADER_LENGTH..][..c];
            && (|w| == |before| + |data| + |comment| <==> w == before + Splice(data, comment))
            && (a == HEADER_LENGTH && b == |comment| && c == |data| - HEADER_LENGTH ==>
                  w == before + Splice(data, comment))
  {
    var w := before + data[..HEADER_LENGTH][..a] + comment[..b] + data[HEADER_LENGTH..][..c];
    if a + b + c == |data| + |comment| {
      assert data[..HEADER_LENGTH][..a] == data[..HEADER_LENGTH] && comment[..b] == comment;
      assert data[HEADER_LENGTH..][..c] == data[HEADER_LENGTH..];
      assert w == before + Splice(data, comment);
    }
  }

  /** The output, announced as `|data| + |comment|` bytes: exactly when that many are written they
      are the spliced file, and that is so when no write falls short. */
  method WriteSpliced(data: seq<Byte>, comment: seq<Byte>, output: Output)
    requires |data| >= HEADER_LENGTH && |comment| <= BYTES_IN_ONE_CHUNK
    modifies output
    ensures |output.written| == old(|output.written|) + |data| + |comment| <==>
            output.written == old(output.written) + Splice(data, comment)
    ensures (forall k :: output.accepts(k) >= BYTES_IN_ONE_CHUNK) ==>
              output.written == old(output.written) + Splice(data, comment)
  {
    var insertOffset := HEADER_LENGTH;
    var a := output.Write(data[..insertOffset]);
    var b := output.Write(comment);
    ghost var c := WriteInChunks(data[insertOffset..], output);
    WrittenIsSplice(old(output.written), data, comment, a, b, c);
  }

  method PrintPng(data: seq<Byte>, checksum: seq<Byte>, output: Output, computer: CrcComputer)
    returns (contentLength: nat)
    requires |data| >= HEADER_LENGTH && |checksum| >= 32 && computer.Valid()
    modifies output, computer, computer.crcTable
    ensures computer.Valid() && contentLength == |data| + |Comment(checksum)|
    ensures |output.written| == old(|output.written|) + contentLength <==>
            output.written == old(output.written) + Splice(data, Comment(checksum))
    ensures (forall k :: output.accepts(k) >= BYTES_IN_ONE_CHUNK) ==>
              output.written == old(output.written) + Splice(data, Comment(checksum))
  {
    var bytesToAdd := new ByteVector();
    ConvertChecksumToComment(checksum, bytesToAdd, computer);
    CommentParses(checksum, []);
    assert [] + Comment(checksum) == Comment(checksum);
    contentLength := |data| + |bytesToAdd.bytes|;
    WriteSpliced(data, bytesToAdd.bytes, output);
  }
}
