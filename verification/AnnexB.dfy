/**
 The Annex B byte stream: the parser that cuts it into NAL units (h264parser/h264_parser.cc) and the loop that
 writes NAL units back (tools/dropper.cc).
 */
module AnnexB {
  import opened H264

  /** A NAL unit and the length of the start code in front of it. */
  datatype AnnexBNalu = AnnexBNalu(data: Bytes, startCodeSize: nat)

  /** The three bytes 00 00 01 at position i. */
  predicate CodeAt(s: Bytes, i: nat) {
    i + 3 <= |s| && s[i] == 0 && s[i + 1] == 0 && s[i + 2] == 1
  }

  ghost predicate HasCode(s: Bytes) {
    exists i: nat :: CodeAt(s, i)
  }

  datatype Search = NotFound | Found(offset: nat, size: nat)

  /** The first 00 00 01 is at position i; a zero byte in front of it belongs to the start code. */
  ghost predicate FirstCode(s: Bytes, i: nat) {
    CodeAt(s, i) && forall j: nat :: j < i ==> !CodeAt(s, j)
  }

  function CodeFrom(i: nat, s: Bytes): Search
    requires i < |s|
  {
    if i > 0 && s[i - 1] == 0 then Found(i - 1, 4) else Found(i, 3)
  }

  function SearchFrom(s: Bytes, i: nat): (search: Search)
    ensures search.Found? ==> (search.size == 3 || search.size == 4) && search.offset + search.size <= |s|
    decreases |s| - i
  {
    if i + 3 > |s| then NotFound
    else if CodeAt(s, i) then CodeFrom(i, s)
    else SearchFrom(s, i + 1)
  }

  /** The first start code of a stream. */
  function StartCode(s: Bytes): (search: Search)
    ensures search.Found? ==> (search.size == 3 || search.size == 4) && search.offset + search.size <= |s|
  {
    SearchFrom(s, 0)
  }

  lemma {:induction false} SearchFinds(s: Bytes, i: nat)
    requires forall j: nat :: j < i ==> !CodeAt(s, j)
    ensures SearchFrom(s, i).NotFound? ==> !HasCode(s)
    ensures SearchFrom(s, i).Found? ==> exists k: nat :: FirstCode(s, k) && SearchFrom(s, i) == CodeFrom(k, s)
    decreases |s| - i
  {
    if |s| < i + 3 {
    } else {
      if CodeAt(s, i) {
        assert FirstCode(s, i);
      } else {
        SearchFinds(s, i + 1);
      }
    }
  }

  lemma StartCodeIs(s: Bytes, k: nat)
    requires FirstCode(s, k)
    ensures StartCode(s) == CodeFrom(k, s)
  {
    SearchFinds(s, 0);
    if StartCode(s).Found? {
      var l: nat :| FirstCode(s, l) && StartCode(s) == CodeFrom(l, s);
      assert l == k;
    }
  }

  lemma NoStartCode(s: Bytes)
    ensures StartCode(s).NotFound? <==> !HasCode(s)
  {
    SearchFinds(s, 0);
  }

  /** Length of the NAL unit at the start of body: up to the next start code, or all of it. */
  function NaluLength(body: Bytes): (n: nat)
    ensures n <= |body|
  {
    var code := StartCode(body);
    if code.NotFound? then |body| else code.offset
  }

  datatype Step = End | Step(nalu: AnnexBNalu, rest: Bytes)

  /** The first NAL unit of a stream and what follows it. A start code with nothing behind it ends the stream. */
  function FirstNalu(s: Bytes): (step: Step)
    ensures step.Step? ==> |step.rest| < |s|
  {
    var code := StartCode(s);
    if code.NotFound? then End
    else
      var body := s[code.offset + code.size..];
      if body == [] then End
      else
        var n := NaluLength(body);
        Step(AnnexBNalu(body[..n], code.size), body[n..])
  }

  /** All NAL units of a stream. */
  function Parse(s: Bytes): seq<AnnexBNalu>
    decreases |s|
  {
    match FirstNalu(s)
    case End => []
    case Step(nalu, rest) => [nalu] + Parse(rest)
  }

  function Code(size: nat): Bytes {
    if size == 4 then [0, 0, 0, 1] else [0, 0, 1]
  }

  function Write(nalus: seq<AnnexBNalu>): Bytes {
    if nalus == [] then [] else Code(nalus[0].startCodeSize) + nalus[0].data + Write(nalus[1..])
  }

  /**
   What a parser can yield: start codes of 3 or 4 bytes, none of them inside a NAL unit, and no zero byte that
   the following 3-byte start code would have absorbed.
   */
  ghost predicate Delimited(nalus: seq<AnnexBNalu>) {
    forall i :: 0 <= i < |nalus| ==>
      && (nalus[i].startCodeSize == 3 || nalus[i].startCodeSize == 4)
      && !HasCode(nalus[i].data)
      && (i < |nalus| - 1 && EndsInZero(nalus[i].data) ==> nalus[i + 1].startCodeSize == 4)
  }

  /** Lists that survive writing and parsing: those that do not end in a bare start code either. */
  ghost predicate Canonical(nalus: seq<AnnexBNalu>) {
    Delimited(nalus) && (nalus != [] ==> nalus[|nalus| - 1].data != [])
  }

  predicate EndsInZero(data: Bytes) {
    data != [] && data[|data| - 1] == 0
  }

  // ---------- Parsing what was written ----------

  lemma LeadingCode(size: nat, rest: Bytes)
    requires size == 3 || size == 4
    ensures StartCode(Code(size) + rest) == Found(0, size)
  {
    var s := Code(size) + rest;
    assert FirstCode(s, size - 3);
    StartCodeIs(s, size - 3);
  }

  /** The start code behind a NAL unit is found right at its end. */
  lemma NextCode(data: Bytes, size: nat, rest: Bytes)
    requires size == 3 || size == 4
    requires !HasCode(data) && (EndsInZero(data) ==> size == 4)
    ensures StartCode(data + (Code(size) + rest)) == Found(|data|, size)
  {
    var s := data + (Code(size) + rest);
    var k := |data| + size - 3;
    forall j: nat | j < k
      ensures !CodeAt(s, j)
    {
      if j + 3 <= |data| {
        assert !CodeAt(data, j);
      } else {
        assert s[j + 2] == Code(size)[j + 2 - |data|] == 0;
      }
    }
    assert CodeAt(s, k);
    StartCodeIs(s, k);
    if size == 4 { assert s[k - 1] == 0; }
  }

  /** One NAL unit of what was written. */
  lemma ParseStep(nalu: AnnexBNalu, rest: Bytes)
    requires (nalu.startCodeSize == 3 || nalu.startCodeSize == 4) && nalu.data + rest != []
    requires NaluLength(nalu.data + rest) == |nalu.data|
    ensures Parse(Code(nalu.startCodeSize) + nalu.data + rest) == [nalu] + Parse(rest)
  {
    var body := nalu.data + rest;
    var s := Code(nalu.startCodeSize) + nalu.data + rest;
    assert s == Code(nalu.startCodeSize) + body;
    LeadingCode(nalu.startCodeSize, body);
    assert s[nalu.startCodeSize..] == body;
    assert body[..|nalu.data|] == nalu.data && body[|nalu.data|..] == rest;
  }

  /** The first NAL unit of a written list ends where it should. */
  lemma LengthOfWritten(nalus: seq<AnnexBNalu>)
    requires Canonical(nalus) && nalus != []
    ensures nalus[0].data + Write(nalus[1..]) != []
    ensures NaluLength(nalus[0].data + Write(nalus[1..])) == |nalus[0].data|
  {
    var nalu, rest := nalus[0], nalus[1..];
    if rest == [] {
      assert nalu.data + Write(rest) == nalu.data;
      NoStartCode(nalu.data);
    } else {
      var next := rest[0];
      assert next == nalus[1];
      var tail := next.data + Write(rest[1..]);
      assert Write(rest) == Code(next.startCodeSize) + tail;
      NextCode(nalu.data, next.startCodeSize, tail);
    }
  }

  lemma {:induction false} ParseOfWrite(nalus: seq<AnnexBNalu>)
    requires Canonical(nalus)
    ensures Parse(Write(nalus)) == nalus
  {
    if nalus == [] {
      NoStartCode([]);
    } else {
      var rest := nalus[1..];
      LengthOfWritten(nalus);
      ParseStep(nalus[0], Write(rest));
      assert forall i :: 0 <= i < |rest| ==> rest[i] == nalus[i + 1];
      ParseOfWrite(rest);
      assert [nalus[0]] + rest == nalus;
    }
  }

  // ---------- What the parser yields for any stream ----------

  /** What the first start code found looks like: its bytes, nothing before it, no zero in front of a 3-byte one. */
  lemma FoundCode(s: Bytes)
    requires StartCode(s).Found?
    ensures var Found(offset, size) := StartCode(s);
            && (size == 3 || size == 4) && offset + size <= |s|
            && s == s[..offset] + Code(size) + s[offset + size..]
            && !HasCode(s[..offset])
            && (size == 3 ==> !EndsInZero(s[..offset]))
  {
    SearchFinds(s, 0);
    var k: nat :| FirstCode(s, k) && StartCode(s) == CodeFrom(k, s);
    var Found(offset, size) := StartCode(s);
    assert s[offset..offset + size] == Code(size);
    if HasCode(s[..offset]) {
      var j: nat :| CodeAt(s[..offset], j);
      assert CodeAt(s, j);
      assert false;
    }
  }

  /** Seen from where the NAL unit ends, the next start code is the same one. */
  lemma LeadingAgain(body: Bytes)
    requires StartCode(body).Found?
    ensures StartCode(body).offset <= |body|
    ensures StartCode(body[StartCode(body).offset..]) == Found(0, StartCode(body).size)
  {
    FoundCode(body);
    var Found(offset, size) := StartCode(body);
    assert body[offset..] == Code(size) + body[offset + size..];
    LeadingCode(size, body[offset + size..]);
  }

  lemma ConsDelimited(nalu: AnnexBNalu, rest: seq<AnnexBNalu>)
    requires (nalu.startCodeSize == 3 || nalu.startCodeSize == 4) && !HasCode(nalu.data) && Delimited(rest)
    requires rest != [] && EndsInZero(nalu.data) ==> rest[0].startCodeSize == 4
    ensures Delimited([nalu] + rest)
  {
    var nalus := [nalu] + rest;
    forall i | 1 <= i < |nalus|
      ensures nalus[i] == rest[i - 1] && (i < |nalus| - 1 ==> nalus[i + 1] == rest[i])
    {
    }
  }

  /**
   Any stream is: bytes without a start code, the parsed NAL units written out, and perhaps one bare start code.
   Only in the last case can the last NAL unit be empty.
   */
  ghost predicate Decomposes(s: Bytes, prefix: Bytes, nalus: seq<AnnexBNalu>, tail: Bytes) {
    && s == prefix + Write(nalus) + tail
    && !HasCode(prefix) && Delimited(nalus)
    && (tail == [] || tail == Code(3) || tail == Code(4))
    && (nalus != [] && nalus[|nalus| - 1].data == [] ==> tail != [])
  }

  lemma {:induction false} ParseDecomposes(s: Bytes) returns (prefix: Bytes, tail: Bytes)
    ensures Decomposes(s, prefix, Parse(s), tail)
    ensures StartCode(s).Found? ==> prefix == s[..StartCode(s).offset]
    decreases |s|
  {
    if FirstNalu(s).End? {
      tail := NoNalu(s);
      return if tail == [] then s else s[..StartCode(s).offset], tail;
    }
    var Step(nalu, rest) := FirstNalu(s);
    prefix := s[..StartCode(s).offset];
    FirstNaluIs(s);
    var p;
    p, tail := ParseDecomposes(rest);
    if StartCode(rest).NotFound? { NoStartCode(rest); }
    FirstParsed(rest);
    ConsDelimited(nalu, Parse(rest));
    WriteCons(prefix, nalu, Parse(rest), rest, tail);
  }

  lemma NoNalu(s: Bytes) returns (tail: Bytes)
    requires FirstNalu(s).End?
    ensures StartCode(s).NotFound? ==> tail == [] && !HasCode(s)
    ensures StartCode(s).Found? ==>
      var prefix := s[..StartCode(s).offset];
      s == prefix + tail && !HasCode(prefix) && (tail == Code(3) || tail == Code(4))
  {
    NoStartCode(s);
    tail := [];
    if StartCode(s).Found? {
      FoundCode(s);
      tail := Code(StartCode(s).size);
    }
  }

  /** The first NAL unit lies between two start codes; the rest is empty or starts with the second. */
  lemma FirstNaluIs(s: Bytes)
    requires FirstNalu(s).Step?
    ensures StartCode(s).Found? && !HasCode(s[..StartCode(s).offset])
    ensures var Step(nalu, rest) := FirstNalu(s);
            && s == s[..StartCode(s).offset] + Code(nalu.startCodeSize) + (nalu.data + rest)
            && nalu.startCodeSize == StartCode(s).size
            && !HasCode(nalu.data)
            && (rest == [] || (StartCode(rest).Found? && StartCode(rest).offset == 0))
            && (rest == [] ==> nalu.data != [])
            && (rest != [] && EndsInZero(nalu.data) ==> StartCode(rest).size == 4)
  {
    FoundCode(s);
    var Step(nalu, rest) := FirstNalu(s);
    var body := s[StartCode(s).offset + StartCode(s).size..];
    assert body == nalu.data + rest;
    if StartCode(body).Found? {
      FoundCode(body);
      LeadingAgain(body);
    } else {
      NoStartCode(body);
      assert nalu.data == body;
    }
  }

  lemma FirstParsed(s: Bytes)
    ensures Parse(s) != [] ==> StartCode(s).Found? && Parse(s)[0].startCodeSize == StartCode(s).size
  {
  }

  lemma WriteCons(prefix: Bytes, nalu: AnnexBNalu, nalus: seq<AnnexBNalu>, rest: Bytes, tail: Bytes)
    requires rest == [] + Write(nalus) + tail
    ensures prefix + Code(nalu.startCodeSize) + (nalu.data + rest) == prefix + Write([nalu] + nalus) + tail
  {
    assert ([nalu] + nalus)[1..] == nalus;
  }

  /** The exact condition under which parsing undoes writing. */
  lemma WriteThenParse(nalus: seq<AnnexBNalu>)
    requires forall i :: 0 <= i < |nalus| ==> nalus[i].startCodeSize == 3 || nalus[i].startCodeSize == 4
    ensures Parse(Write(nalus)) == nalus <==> Canonical(nalus)
  {
    if Canonical(nalus) {
      ParseOfWrite(nalus);
    }
    if Parse(Write(nalus)) == nalus {
      var prefix, tail := ParseDecomposes(Write(nalus));
      assert |Write(nalus)| == |prefix| + |Write(nalus)| + |tail|;
      assert tail == [];
    }
  }

  /** Writing undoes parsing: what is lost is only what precedes the first start code and a bare one at the end. */
  lemma ParseThenWrite(s: Bytes)
    ensures StartCode(s).NotFound? ==> Parse(s) == [] && !HasCode(s)
    ensures StartCode(s).Found? ==>
      var fromCode, written := s[StartCode(s).offset..], Write(Parse(s));
      fromCode == written || fromCode == written + Code(3) || fromCode == written + Code(4)
  {
    NoStartCode(s);
    if StartCode(s).Found? {
      var prefix, tail := ParseDecomposes(s);
      var written := Write(Parse(s));
      Associative(prefix, written, tail);
      DropPrefix(prefix, written + tail);
      assert |prefix| == StartCode(s).offset;
    }
  }

  // ---------- The parser ----------

  /** The C library search: index of the first byte equal to value, from position `from` on. */
  method MemChr(data: Bytes, from: nat, value: byte) returns (index: int)
    requires from <= |data|
    ensures index == -1 ==> forall k :: from <= k < |data| ==> data[k] != value
    ensures index != -1 ==>
              && from <= index < |data| && data[index] == value
              && forall k :: from <= k < index ==> data[k] != value
  {
    for i := from to |data|
      invariant forall k :: from <= k < i ==> data[k] != value
    {
      if data[i] == value {
        return i;
      }
    }
    return -1;
  }

  /** Positions whose third byte is not 1 cannot hold a start code. */
  lemma SkipTo(s: Bytes, i: nat, j: nat)
    requires i <= j && forall k :: i + 2 <= k < j + 2 && k < |s| ==> s[k] != 1
    ensures SearchFrom(s, i) == SearchFrom(s, j)
    decreases j - i
  {
    if i == j {
    } else {
      if i + 3 <= |s| { assert s[i + 2] != 1; }
      SkipTo(s, i + 1, j);
    }
  }

  /** Searches for 00 00 01 by its rarest byte, backtracking over one zero byte. */
  method FindStartCode(data: Bytes) returns (found: bool, offset: nat, startCodeSize: nat)
    ensures StartCode(data) == if found then Found(offset, startCodeSize) else NotFound
    ensures !found ==> startCodeSize == 0 && offset == if |data| < 3 then 0 else |data| - 2
  {
    var position := 0;
    while |data| - position >= 3
      invariant 0 <= position <= |data|
      invariant StartCode(data) == SearchFrom(data, position)
      invariant position > 0 ==> position + 2 <= |data|
      decreases |data| - position
    {
      var tmp := MemChr(data, position + 2, 1);
      if tmp == -1 {
        SkipTo(data, position, |data| - 2);
        position := |data| - 2;
        break;
      }
      SkipTo(data, position, tmp - 2);
      position := tmp - 2;
      if CodeAt(data, position) {
        offset := position;
        startCodeSize := 3;
        if offset > 0 && data[position - 1] == 0 {
          offset := offset - 1;
          startCodeSize := startCodeSize + 1;
        }
        return true, offset, startCodeSize;
      }
      position := position + 1;
    }
    return false, position, 0;
  }

  /** The first NAL unit, seen from its start code on. */
  lemma FirstNaluAt(s: Bytes)
    ensures FirstNalu(s).Step? ==> StartCode(s).Found?
    ensures StartCode(s).Found? ==>
      var Found(offset, size) := StartCode(s);
      var from := s[offset..];
      var n := NaluLength(from[size..]);
      FirstNalu(s) ==
        if from[size..] == [] then End else Step(AnnexBNalu(from[size..n + size], size), from[n + size..])
  {
    if StartCode(s).Found? {
      var Found(offset, size) := StartCode(s);
      var from, body := s[offset..], s[offset + size..];
      hide StartCode;
      var n := NaluLength(body);
      assert from[size..] == body;
      assert from[size..n + size] == body[..n] && from[n + size..] == body[n..];
    }
  }

  lemma NaluLengthIs(body: Bytes)
    ensures NaluLength(body) == if StartCode(body).NotFound? then |body| else StartCode(body).offset
  {
  }

  class H264Parser {
    /** The part of the stream not parsed yet. */
    var stream: Bytes

    constructor (data: Bytes)
      ensures stream == data
    {
      stream := data;
    }

    /** Moves to the next start code; false when there is none, or nothing behind it. */
    method LocateNalu() returns (found: bool, naluSize: nat, startCodeSize: nat)
      modifies this
      ensures found <==> FirstNalu(old(stream)).Step?
      ensures found ==>
        && startCodeSize <= naluSize <= |stream|
        && FirstNalu(old(stream)) == Step(AnnexBNalu(stream[startCodeSize..naluSize], startCodeSize),
            stream[naluSize..])
    {
      hide StartCode, FirstNalu, NaluLength;
      FirstNaluAt(stream);
      var ok, naluStartOff, size := FindStartCode(stream);
      if !ok {
        return false, 0, 0;
      }
      stream := stream[naluStartOff..];
      var naluData := stream[size..];
      if |naluData| <= 0 {
        return false, 0, 0;
      }
      var ok2, sizeWithoutStartCode, _ := FindStartCode(naluData);
      if !ok2 {
        sizeWithoutStartCode := |naluData|;
      }
      NaluLengthIs(naluData);
      return true, sizeWithoutStartCode + size, size;
    }

    /** The next NAL unit; at the end of the stream the parser becomes empty. */
    method AdvanceToNextNalu() returns (ok: bool, nalu: AnnexBNalu)
      modifies this
      ensures ok <==> FirstNalu(old(stream)).Step?
      ensures ok ==> FirstNalu(old(stream)) == Step(nalu, stream)
      ensures !ok ==> stream == []
    {
      var found, naluSizeWithStartCode, startCodeSize := LocateNalu();
      if !found {
        stream := [];
        return false, AnnexBNalu([], 0);
      }
      nalu := AnnexBNalu(stream[startCodeSize..naluSizeWithStartCode], startCodeSize);
      stream := stream[naluSizeWithStartCode..];
      ok := true;
    }
  }

  /** The loop with which every user of the parser collects the NAL units of a frame. */
  method ParseAll(data: Bytes) returns (nalus: seq<AnnexBNalu>)
    ensures nalus == Parse(data)
  {
    var parser := new H264Parser(data);
    nalus := [];
    while true
      invariant nalus + Parse(parser.stream) == Parse(data)
      decreases |parser.stream|
    {
      var ok, nalu := parser.AdvanceToNextNalu();
      if !ok {
        break;
      }
      nalus := nalus + [nalu];
    }
  }

  // ---------- The writer ----------

  /** Start codes and NAL units together, whatever the start code sizes say. */
  function SizeOf(nalus: seq<AnnexBNalu>): nat {
    if nalus == [] then 0 else nalus[0].startCodeSize + |nalus[0].data| + SizeOf(nalus[1..])
  }

  /** The size reckoned is that of what is written, for start codes of 3 and 4 bytes. */
  lemma {:induction false} SizeOfWritten(nalus: seq<AnnexBNalu>)
    requires forall i :: 0 <= i < |nalus| ==> nalus[i].startCodeSize == 3 || nalus[i].startCodeSize == 4
    ensures |Write(nalus)| == SizeOf(nalus)
  {
    if nalus == [] {
    } else {
      SizeOfWritten(nalus[1..]);
    }
  }

  method CalculateFrameSize(nalus: seq<AnnexBNalu>) returns (size: nat)
    ensures size == SizeOf(nalus)
  {
    size := 0;
    for i := 0 to |nalus|
      invariant size + SizeOf(nalus[i..]) == SizeOf(nalus)
    {
      assert nalus[i..][1..] == nalus[i + 1..];
      size := size + (nalus[i].startCodeSize + |nalus[i].data|);
    }
  }

  /** Copies the NAL units into a buffer; gives up at a start code that is neither 3 nor 4 bytes long. */
  method WriteFrame(nalus: seq<AnnexBNalu>, buffer: array<byte>) returns (copied: bool, offset: nat)
    requires |Write(nalus)| <= buffer.Length
    modifies buffer
    ensures copied <==> forall i :: 0 <= i < |nalus| ==> nalus[i].startCodeSize == 3 || nalus[i].startCodeSize == 4
    ensures copied ==> offset == |Write(nalus)| && buffer[..offset] == Write(nalus)
  {
    assert Write([]) == [] && nalus[0..] == nalus;
    hide Write, Code;
    offset := 0;
    for i := 0 to |nalus|
      invariant forall k :: 0 <= k < i ==> nalus[k].startCodeSize == 3 || nalus[k].startCodeSize == 4
      invariant offset + |Write(nalus[i..])| == |Write(nalus)| && buffer[..offset] + Write(nalus[i..]) == Write(nalus)
    {
      var item := nalus[i];
      if item.startCodeSize != 3 && item.startCodeSize != 4 {
        return false, offset;
      }
      ghost var before := buffer[..offset];
      var data := Code(item.startCodeSize) + item.data;
      CodeLength(item.startCodeSize);
      WriteNext(nalus, i);
      Associative(before, data, Write(nalus[i + 1..]));
      CopyTo(buffer, offset, data);
      offset := offset + item.startCodeSize + |item.data|;
      assert buffer[..offset] == before + data;
    }
    assert nalus[|nalus|..] == [];
    return true, offset;
  }

  lemma CodeLength(n: nat)
    requires n == 3 || n == 4
    ensures |Code(n)| == n
  {
  }

  lemma WriteNext(nalus: seq<AnnexBNalu>, i: nat)
    requires i < |nalus|
    ensures Write(nalus[i..]) == (Code(nalus[i].startCodeSize) + nalus[i].data) + Write(nalus[i + 1..])
  {
    assert nalus[i..][1..] == nalus[i + 1..];
  }

  /** memcpy into the buffer. */
  method CopyTo(buffer: array<byte>, offset: nat, data: Bytes)
    requires offset + |data| <= buffer.Length
    modifies buffer
    ensures buffer[..offset + |data|] == old(buffer[..offset]) + data
  {
    forall k | 0 <= k < |data| {
      buffer[offset + k] := data[k];
    }
  }
}
