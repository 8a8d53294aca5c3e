/** The resumable HTTP/1.1 senders: a header from memory, then a file. */
module Http1Response {
  import opened Bytes
  import opened Sockets

  const CHUNK := 16384

  /** A file on disk. It may have been cut short since the response was prepared. */
  class File {
    const whole: bytes        // its contents when the response was prepared
    var length: nat           // how much of that is still there

    ghost predicate Valid()
      reads this
    {
      length <= |whole|
    }

    constructor (whole: bytes)
      ensures Valid() && this.whole == whole && length == |whole|
    {
      this.whole := whole;
      length := |whole|;
    }

    method Truncate(to: nat)
      requires Valid()
      modifies this
      ensures Valid() && length == if to < old(length) then to else old(length)
    {
      length := if to < length then to else length;
    }
  }

  class Session {
    const sock: Outgoing
    const header: bytes
    const file: File
    const hasFile: bool                // file_fd >= 0
    ghost const base: bytes            // what was on the wire before the response
    var headerSentOffset: nat
    var isHeaderSent: bool
    var fileOffset: nat
    var fileRemaining: nat

    ghost predicate Valid()
      reads this, file
    {
      && file.Valid()
      && headerSentOffset <= |header| && (isHeaderSent ==> headerSentOffset == |header|)
      && (!isHeaderSent ==> fileOffset == 0) && (!hasFile ==> fileOffset == 0)
      && fileOffset + fileRemaining == |file.whole|
    }

    /** The response. */
    ghost function Whole(): bytes {
      header + if hasFile then file.whole else []
    }

    /** What of it has gone out. */
    ghost function Sent(): bytes
      reads this, file
      requires Valid()
    {
      header[..headerSentOffset] + file.whole[..fileOffset]
    }

    /** The wire carries exactly what the session says it has sent, a prefix of the response. */
    ghost predicate OnTrack()
      reads this, file, sock
    {
      Valid() && sock.wire == base + Sent() && Sent() <= Whole()
    }

    constructor (sock: Outgoing, header: bytes, file: File, hasFile: bool)
      requires file.Valid() && file.length == |file.whole|
      ensures OnTrack() && this.sock == sock && this.header == header && this.file == file && this.hasFile == hasFile
    {
      this.sock, this.header, this.file, this.hasFile := sock, header, file, hasFile;
      base := sock.wire;
      headerSentOffset, isHeaderSent, fileOffset, fileRemaining := 0, false, 0, |file.whole|;
    }

    lemma SentIsPrefix()
      requires Valid()
      ensures Sent() <= Whole()
    {
      if fileOffset > 0 {
        assert header[..headerSentOffset] == header;
      }
    }

    /** One write of the header moves the offset by what the wire took. */
    lemma HeaderMoves(was: nat, n: nat, before: bytes)
      requires Valid() && fileOffset == 0 && headerSentOffset == was + n
      requires before == base + header[..was] && sock.wire == before + header[was..was + n]
      ensures OnTrack()
    {
      assert header[..was] + header[was..was + n] == header[..was + n];
      assert Sent() == header[..was + n];
      SentIsPrefix();
    }

    lemma FileMoves(was: nat, n: nat)
      requires Valid() && isHeaderSent && fileOffset == was + n
      requires sock.wire == base + (header + file.whole[..was]) + file.whole[was..was + n]
      ensures OnTrack()
    {
      assert header[..headerSentOffset] == header;
      assert file.whole[..was] + file.whole[was..was + n] == file.whole[..was + n];
      SentIsPrefix();
    }

    /** 2 and 3 come only after a write that was short, and 0 only after one that failed, or
        at the end of a file that has been cut short. */
    twostate predicate SocketExplains(status: int)
      reads this, file, sock
    {
      && sock.short >= old(sock.short) && sock.failed >= old(sock.failed)
      && (status == 2 || status == 3 ==> sock.short > old(sock.short))
      && (status == 0 ==> sock.failed > old(sock.failed) || (hasFile && file.length <= fileOffset < |file.whole|))
    }

    /** The header loop of both senders: 1 when it is all out. */
    method SendHeader() returns (status: int)
      requires OnTrack() && !isHeaderSent
      modifies this`headerSentOffset, sock
      ensures OnTrack() && status in {0, 1, 3} && (status == 1 <==> headerSentOffset == |header|)
      ensures SocketExplains(status) && (status == 0 ==> sock.failed > old(sock.failed))
    {
      while headerSentOffset < |header|
        invariant OnTrack() && sock.short >= old(sock.short) && sock.failed >= old(sock.failed)
        decreases |header| - headerSentOffset
      {
        ghost var was, before := headerSentOffset, sock.wire;
        assert Sent() == header[..was];
        var rest := header[headerSentOffset..];
        var n := sock.Write(rest);
        if n <= 0 {
          return if n == AGAIN then 3 else 0;
        }
        assert rest[..n] == header[was..was + n];
        headerSentOffset := headerSentOffset + n;
        HeaderMoves(was, n, before);
      }
      return 1;
    }

    /** sendfile, at most `max` bytes from the offset; 0 at the end of what is there. */
    method SendFile(max: nat) returns (n: int)
      requires OnTrack() && isHeaderSent && hasFile && max <= fileRemaining
      modifies this`fileOffset, this`fileRemaining, sock
      ensures OnTrack() && FAILED <= n
      ensures n > 0 ==> fileOffset == old(fileOffset) + n && n <= max
      ensures n <= 0 ==> fileOffset == old(fileOffset)
      ensures file.length <= fileOffset && n <= 0 ==> n == 0
      ensures sock.short >= old(sock.short) && sock.failed >= old(sock.failed)
      ensures n == AGAIN ==> sock.short > old(sock.short)
      ensures n <= 0 && n != AGAIN ==> sock.failed > old(sock.failed) || file.length <= fileOffset || max == 0
    {
      ghost var was := fileOffset;
      var end := if fileOffset + max < file.length then fileOffset + max else file.length;
      if end <= fileOffset {
        return 0;
      }
      var data := file.whole[fileOffset..end];
      assert header[..headerSentOffset] == header;
      n := sock.Write(data);
      if n > 0 {
        assert data[..n] == file.whole[was..was + n];
        fileOffset := fileOffset + n;
        fileRemaining := fileRemaining - n;
        FileMoves(was, n);
      }
    }

    lemma AllSent()
      requires Valid() && headerSentOffset == |header|
      ensures Sent() == Whole() <==> !hasFile || fileRemaining == 0
    {
      assert header[..headerSentOffset] == header;
      assert !hasFile ==> file.whole[..fileOffset] == [];
      assert fileRemaining == 0 ==> file.whole[..fileOffset] == file.whole;
    }

    /** http1_response_plain. Whatever the socket takes and however often it is called, the
        wire carries a prefix of the response, and 1 means all of it. */
    method Plain() returns (status: int)
      requires OnTrack()
      modifies this`headerSentOffset, this`isHeaderSent, this`fileOffset, this`fileRemaining, sock
      ensures OnTrack() && status in {0, 1, 3}
      ensures status == 1 <==> Sent() == Whole()
      ensures SocketExplains(status)
    {
      if !isHeaderSent {
        status := SendHeader();
        if status != 1 {
          NotAllSent();
          return;
        }
        isHeaderSent := true;
      }
      if hasFile && fileRemaining > 0 {
        while fileRemaining > 0
          invariant OnTrack() && isHeaderSent && sock.short >= old(sock.short) && sock.failed >= old(sock.failed)
          decreases fileRemaining
        {
          AllSent();
          var n := SendFile(fileRemaining);
          if n < 0 {
            return if n == AGAIN then 3 else 0;
          }
          if n == 0 {
            return 0;
          }
        }
      }
      AllSent();
      return 1;
    }

    lemma NotAllSent()
      requires Valid() && headerSentOffset < |header|
      ensures Sent() != Whole()
    {
      assert |Sent()| == headerSentOffset + fileOffset && |Whole()| >= |header|;
    }

    /** http1_response_ssl: 2 and 3 mean call again. 1 means all of it too, unless the file
        has been cut short at or before the offset reached. */
    method Tls() returns (status: int)
      requires OnTrack()
      modifies this`headerSentOffset, this`isHeaderSent, this`fileOffset, this`fileRemaining, sock
      ensures OnTrack() && status in {0, 1, 2, 3}
      ensures status == 1 <==> Sent() == Whole() || (headerSentOffset == |header| && hasFile && file.length <= fileOffset)
      ensures file.length == |file.whole| ==> (status == 1 <==> Sent() == Whole())
      ensures SocketExplains(status)
    {
      if !isHeaderSent {
        status := SendHeader();
        if status != 1 {
          NotAllSent();
          status := WantsReadPerhaps(status);
          return;
        }
        isHeaderSent := true;
      }
      if hasFile && fileRemaining > 0 {
        while fileRemaining > 0
          invariant OnTrack() && isHeaderSent && sock.short >= old(sock.short) && sock.failed >= old(sock.failed)
          decreases fileRemaining
        {
          AllSent();
          if fileOffset >= file.length {
            return 1;   // read gives 0: the loop is left with bytes remaining
          }
          var n := SendFile(if fileRemaining < CHUNK then fileRemaining else CHUNK);
          if n <= 0 {
            status := WantsReadPerhaps(if n == AGAIN then 3 else 0);
            return;
          }
        }
      }
      AllSent();
      return 1;
    }

    /** Where a plain socket has one kind of EAGAIN, TLS has two. */
    method WantsReadPerhaps(status: int) returns (r: int)
      ensures r == status || (status == 3 && r == 2)
    {
      var read: bool := *;
      r := if status == 3 && read then 2 else status;
    }
  }
}
