/** The camera link's framing: a frame is the marker FF AA, a 4-byte
    little-endian unsigned payload length, the payload, and 2 trailing bytes.
    The serial port is a finite byte sequence read through a cursor; the end of
    the sequence stands for the read timeout (a read that returns nothing). */
module Framing {
  import opened Wrappers

  type byte = b: int | 0 <= b < 256

  const MarkerFirst: byte := 0xFF
  const MarkerSecond: byte := 0xAA
  const TrailerLength: nat := 2
  const Two32: nat := 0x1_0000_0000

  /** One `ser.read(k)`: up to `k` bytes from the cursor, fewer (possibly none)
      when the stream runs out first. */
  function Read(s: seq<byte>, pos: nat, k: nat): (r: seq<byte>)
    requires pos <= |s|
    ensures |r| == Min(k, |s| - pos) && r == s[pos..pos + |r|]
  {
    s[pos..Min(pos + k, |s|)]
  }

  /** `read_exact(n)`: keeps reading until `n` bytes are collected, giving up
      (None) on the first read that returns nothing.  Exactly the next `n`
      bytes, or None when fewer remain; `n = 0` gives the empty string. */
  method ReadExact(s: seq<byte>, pos: nat, n: nat) returns (data: Option<seq<byte>>, next: nat)
    requires pos <= |s|
    ensures pos + n <= |s| ==> data == Some(s[pos..pos + n]) && next == pos + n
    ensures pos + n > |s| ==> data == None && next == |s|
  {
    var acc: seq<byte> := [];
    next := pos;
    while |acc| < n
      invariant pos <= next <= |s|
      invariant acc == s[pos..next] && |acc| <= n
      decreases n - |acc|
    {
      var chunk := Read(s, next, n - |acc|);
      if chunk == [] {
        return None, next;
      }
      acc := acc + chunk;
      next := next + |chunk|;
    }
    return Some(acc), next;
  }

  /** The scan for the start marker from `i`: the position just after the first
      FF AA pair found, reading a byte and, after an FF, one more.  An FF
      followed by anything else consumes both bytes. */
  function MarkerEnd(s: seq<byte>, i: nat): (r: Option<nat>)
    requires i <= |s|
    ensures r.Some? ==> i + 2 <= r.value <= |s|
    ensures r.Some? ==> s[r.value - 2] == MarkerFirst && s[r.value - 1] == MarkerSecond
    decreases |s| - i
  {
    if i == |s| then None
    else if s[i] != MarkerFirst then MarkerEnd(s, i + 1)
    else if i + 1 == |s| then MarkerEnd(s, i + 1)
    else if s[i + 1] == MarkerSecond then Some(i + 2)
    else MarkerEnd(s, i + 2)
  }

  /** `struct.unpack("<I", ...)`: four bytes, least significant first. */
  function LittleEndian32(b: seq<byte>): (n: nat)
    requires |b| == 4
    ensures n < Two32
  {
    (b[0] as int) + 256 * (b[1] as int) + 65536 * (b[2] as int) + 16777216 * (b[3] as int)
  }

  /** The length field a sender writes for a payload of `n` bytes. */
  function EncodeLittleEndian32(n: nat): (b: seq<byte>)
    requires n < Two32
    ensures |b| == 4 && LittleEndian32(b) == n
  {
    var b0, r0 := n % 256, n / 256;
    var b1, r1 := r0 % 256, r0 / 256;
    var b2, b3 := r1 % 256, r1 / 256;
    assert n == b0 + 256 * (b1 + 256 * (b2 + 256 * b3));
    [b0, b1, b2, b3]
  }

  /** What one call of the frame grabber yields: the payload (None on any
      failure) and where the cursor is left. */
  datatype Parsed = Parsed(frame: Option<seq<byte>>, next: nat)

  /** The frame grabber as a function of the fresh byte stream. */
  function ParseFrame(s: seq<byte>): Parsed
  {
    match MarkerEnd(s, 0)
    case None => Parsed(None, |s|)
    case Some(m) =>
      if m + 4 > |s| then Parsed(None, |s|)
      else
        var length := LittleEndian32(s[m..m + 4]);
        var start := m + 4;
        if start + length > |s| then Parsed(None, |s|)
        else if length == 0 then Parsed(None, start)
        else Parsed(Some(s[start..start + length]), Min(start + length + TrailerLength, |s|))
  }

  /** The marker loop of `grab_frame`: read a byte; after an FF read one more
      and stop if it is AA; give up when a read returns nothing. */
  method ScanForMarker(s: seq<byte>) returns (found: bool, pos: nat)
    ensures pos <= |s|
    ensures found ==> MarkerEnd(s, 0) == Some(pos)
    ensures !found ==> MarkerEnd(s, 0) == None && pos == |s|
  {
    pos := 0;
    while true
      invariant pos <= |s|
      invariant MarkerEnd(s, pos) == MarkerEnd(s, 0)
      decreases |s| - pos
    {
      if pos == |s| {
        return false, pos;
      }
      var b1 := s[pos];
      pos := pos + 1;
      if b1 == MarkerFirst {
        var b2 := Read(s, pos, 1);
        pos := pos + |b2|;
        if b2 == [MarkerSecond] {
          return true, pos;
        }
      }
    }
  }

  /** `grab_frame` after the drain: scan for the marker, read the length,
      read the payload, and consume (without checking) the trailer. */
  method GrabFrame(s: seq<byte>) returns (frame: Option<seq<byte>>, next: nat)
    ensures Parsed(frame, next) == ParseFrame(s)
  {
    var found, pos := ScanForMarker(s);
    if !found {
      return None, pos;
    }

    var lengthBytes, afterLength := ReadExact(s, pos, 4);
    if lengthBytes.None? || lengthBytes.value == [] {
      return None, afterLength;
    }
    var length := LittleEndian32(lengthBytes.value);

    var imageData, afterImage := ReadExact(s, afterLength, length);
    if imageData.None? || imageData.value == [] {
      return None, afterImage;
    }

    var trailer := Read(s, afterImage, TrailerLength);
    return imageData, afterImage + |trailer|;
  }

  // ---------------------------------------------------------------------------
  // Properties of the framing

  /** What a sender writes: marker, length, payload, two trailer bytes. */
  function EncodeFrame(payload: seq<byte>, t1: byte, t2: byte): seq<byte>
    requires |payload| < Two32
  {
    [MarkerFirst, MarkerSecond] + EncodeLittleEndian32(|payload|) + payload + [t1, t2]
  }

  /** Bytes other than FF are skipped one at a time by the marker scan. */
  lemma {:induction false} ScanSkipsNoise(s: seq<byte>, i: nat, j: nat)
    requires i <= j <= |s|
    requires forall k :: i <= k < j ==> s[k] != MarkerFirst
    ensures MarkerEnd(s, i) == MarkerEnd(s, j)
    decreases j - i
  {
    if i < j {
      ScanSkipsNoise(s, i + 1, j);
    }
  }

  /** Round trip: whatever noise free of FF bytes precedes it, a frame with a
      non-empty payload is parsed back to its payload, whatever its trailer
      bytes, and the cursor ends just after the trailer. */
  lemma {:induction false} RoundTrip(noise: seq<byte>, payload: seq<byte>, t1: byte, t2: byte)
    requires forall k :: 0 <= k < |noise| ==> noise[k] != MarkerFirst
    requires 0 < |payload| < Two32
    ensures var s := noise + EncodeFrame(payload, t1, t2);
      ParseFrame(s) == Parsed(Some(payload), |s|)
  {
    var header := EncodeLittleEndian32(|payload|);
    var s := noise + EncodeFrame(payload, t1, t2);
    var n := |noise|;
    var body := payload + [t1, t2];
    var rest := header + body;
    assert s == (noise + [MarkerFirst, MarkerSecond]) + rest;
    ScanSkipsNoise(s, 0, n);
    assert s[n] == MarkerFirst && s[n + 1] == MarkerSecond;
    assert MarkerEnd(s, 0) == Some(n + 2);
    assert s[n + 2..] == rest;
    assert rest[..4] == header && rest[4..] == body;
    assert s[n + 2..n + 6] == header;
    assert body[..|payload|] == payload;
    assert s[n + 6..n + 6 + |payload|] == payload;
    assert |s| == n + 6 + |payload| + 2;
  }

  /** FF FF AA does not start a frame at the second FF: the first FF swallows
      it, and the scan resumes after the AA. */
  lemma SwallowedMarker(rest: seq<byte>)
    ensures var s := [MarkerFirst, MarkerFirst, MarkerSecond] + rest;
      MarkerEnd(s, 0) == MarkerEnd(s, 3)
  {
    var s := [MarkerFirst, MarkerFirst, MarkerSecond] + rest;
    assert s[0] == MarkerFirst && s[1] == MarkerFirst && s[2] == MarkerSecond;
    assert MarkerEnd(s, 0) == MarkerEnd(s, 2);
    assert MarkerEnd(s, 2) == MarkerEnd(s, 3);
  }

  /** A declared length of zero yields no frame, even though the empty payload
      was read successfully. */
  lemma ZeroLengthRejected(rest: seq<byte>)
    ensures ParseFrame([MarkerFirst, MarkerSecond, 0, 0, 0, 0] + rest).frame == None
  {
    var s := [MarkerFirst, MarkerSecond, 0, 0, 0, 0] + rest;
    assert MarkerEnd(s, 0) == Some(2);
    assert s[2..6] == [0, 0, 0, 0];
  }

  /** `s` holds, right after an FF AA marker ending at `m`, a length field
      announcing exactly `payload`, followed by that payload. */
  ghost predicate FramedAt(s: seq<byte>, m: nat, payload: seq<byte>)
  {
    && 2 <= m && m + 4 + |payload| <= |s|
    && s[m - 2] == MarkerFirst && s[m - 1] == MarkerSecond
    && LittleEndian32(s[m..m + 4]) == |payload|
    && s[m + 4..m + 4 + |payload|] == payload
  }

  /** Soundness: a payload is returned only when it is non-empty and framed by
      a marker and a length field that announces exactly its size; a stream
      with no marker pair at all yields nothing. */
  lemma ParseSound(s: seq<byte>)
    ensures ParseFrame(s).frame.Some? ==>
      var p := ParseFrame(s).frame.value;
      |p| > 0 && exists m :: FramedAt(s, m, p)
    ensures (forall k :: 0 <= k < |s| ==> s[k] != MarkerFirst) ==> ParseFrame(s).frame == None
  {
    if ParseFrame(s).frame.Some? {
      var m := MarkerEnd(s, 0).value;
      assert FramedAt(s, m, ParseFrame(s).frame.value);
    }
    if forall k :: 0 <= k < |s| ==> s[k] != MarkerFirst {
      ScanSkipsNoise(s, 0, |s|);
    }
  }
}
