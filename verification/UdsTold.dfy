/** What the client is told about the download below, in both directions, and what reaches it of a request. */
module UdsTold {
  import opened Words
  import opened Crc32
  import opened UdsAnswers
  import opened UdsRuntime
  import D = UdsDownload
  import S = UdsServer

  /** A number as four bytes, the most significant first. */
  function Encoded(n: u32): seq<byte> {
    [n / 0x100_0000, n / 0x1_0000 % 256, n / 256 % 256, n % 256]
  }

  /** A request for download: address first, then length, four bytes each. */
  function DownloadRequest(address: u32, length: u32): (q: seq<byte>)
    ensures |q| == 10
  {
    [0x34, 0x44] + Encoded(address) + Encoded(length)
  }

  /** Address and length arrive below as they were sent. */
  lemma RequestArrives(s: S.Server, address: u32, length: u32)
    requires 0x34 in s.installed
    ensures S.Forwarded(s, DownloadRequest(address, length)) == Some(S.RequestDownload(address, length))
  {
    var q := DownloadRequest(address, length);
    assert q[2..6] == Encoded(address) && q[6..] == Encoded(length);
    S.BigEndianReadsBack(address);
    S.BigEndianReadsBack(length);
  }

  /** And the data byte for byte. */
  lemma DataArrives(data: seq<byte>, i: nat, b: bv8)
    requires i < |data| && data[i] == b as int
    ensures AsBits(data)[i] == b
  {
    ByteArrives(b);
  }

  lemma ByteArrives(b: bv8)
    ensures (b as int) as bv8 == b
  {
  }

  /** A download that begins below is answered with the block length, any other with "out of range". */
  lemma BeginIsTold(rt: Runtime, q: seq<byte>, capacity: u16, now: u32, others: S.Replies, m: Memory)
    requires D.Ready(rt.download) && Heard(q, capacity) && capacity >= 4
    requires S.Forwarded(rt.server, q).Some? && q[0] == 0x34
    ensures var c := S.Forwarded(rt.server, q).value;
            var o := Serve(rt, q, capacity, now, others, m).1;
            var block := rt.download.memory.maxBlock;
            o.code.Ok? && o.response == if D.Begin(rt.download, c.address, c.length, now, m.erase).1.Ok?
                                        then [0x74, 0x20, block / 256, block % 256] else [0x7F, 0x34, 0x31]
  {
  }

  /** A block that is written is acknowledged, any other told as a programming failure. */
  lemma BlockIsTold(rt: Runtime, q: seq<byte>, capacity: u16, now: u32, others: S.Replies, m: Memory)
    requires D.Ready(rt.download) && Heard(q, capacity) && capacity >= 3
    requires S.Forwarded(rt.server, q).Some? && q[0] == 0x36
    ensures var o := Serve(rt, q, capacity, now, others, m).1;
            o.code.Ok? && o.response == if D.Write(rt.download, q[1], AsBits(q[2..]), now, m.program).1.Ok?
                                        then [0x76, q[1]] else [0x7F, 0x36, 0x72]
  {
  }

  lemma ExitAnswers(s: S.Server, d: D.Download, q: seq<byte>, capacity: u16, now: u32, m: Memory)
    requires q != [] && q[0] == 0x37 && capacity >= 3 && s.downloadActive && 0x37 in s.installed
    ensures var o := S.TransferExitService(s, q, capacity, Exits(d, q[1..], capacity, now, m).2);
            o.code.Ok? && o.response == if |q| != 2 && |q| != 6 then [0x7F, 0x37, 0x22]
                                        else if D.Finish(d, Promise(q[1..]), now, m.verify).1.Ok?
                                        then [0x77, 0] else [0x7F, 0x37, 0x72]
  {
    hide D.Finish;
  }

  /** So is an exit that finishes the image; with parameters of another length it is refused unseen. */
  lemma ExitIsTold(rt: Runtime, q: seq<byte>, capacity: u16, now: u32, others: S.Replies, m: Memory)
    requires D.Ready(rt.download) && Heard(q, capacity) && capacity >= 3
    requires S.Forwarded(rt.server, q).Some? && q[0] == 0x37
    ensures var o := Serve(rt, q, capacity, now, others, m).1;
            o.code.Ok? && o.response == if |q| != 2 && |q| != 6 then [0x7F, 0x37, 0x22]
                                        else if D.Finish(rt.download, Promise(q[1..]), now, m.verify).1.Ok?
                                        then [0x77, 0] else [0x7F, 0x37, 0x72]
  {
    hide D.Finish;
    hide Exits;
    hide S.TransferExitService;
    ExitAnswers(rt.server.(lastActivityMs := now), rt.download, q, capacity, now, m);
  }

  /** The checksum sent along, most significant byte first, is the one compared with. */
  lemma ChecksumArrives(q: seq<byte>, w: bv32)
    requires |q| == 6 && q[2] as bv32 == w >> 24 && q[3] as bv32 == (w >> 16) & 0xFF
    requires q[4] as bv32 == (w >> 8) & 0xFF && q[5] as bv32 == w & 0xFF
    ensures Promise(q[1..]) == Some(w)
  {
    assert q[1..][1..] == q[2..];
    FourParts(w);
  }

  lemma FourParts(w: bv32)
    ensures ((w >> 24) << 24) | (((w >> 16) & 0xFF) << 16) | (((w >> 8) & 0xFF) << 8) | (w & 0xFF) == w
  {
  }
}
