/** The line reservoir of src/ReadSock.cpp: every descriptor owns a string
    of bytes received but not yet consumed; chunks from recv are appended to
    it and lines are cut off its front at the first CRLF, the line
    terminator of HTTP/1.1 (section 2.2 of RFC 9112). */
module ReadSock {
  import opened Utils

  const MAX_PACKET_SIZE: nat := 65536
  const CRLF: string := "\r\n"
  /** The read-permission bit of `s_sock::perm`. */
  const PERM_READ: bv32 := 1

  datatype Status = RecvEndNb | RecvEnd | RecvDone | InvalidFd | LineNotFound | LineFound

  /** What one recv(2) call delivered: an error (EAGAIN on a non-blocking
      socket), an orderly shutdown by the peer, or up to MAX_PACKET_SIZE bytes. */
  datatype Recv = RecvFailed | PeerClosed | Received(bytes: seq<char>)

  predicate RecvFits(r: Recv) { r.Received? ==> 0 < |r.bytes| <= MAX_PACKET_SIZE }

  predicate CrlfAt(s: string, i: nat) { i + 1 < |s| && s[i] == '\r' && s[i + 1] == '\n' }

  predicate NoCrlf(s: string) { forall i: nat | i < |s| :: !CrlfAt(s, i) }

  /** A string holds no CRLF exactly when none starts at its head and its
      tail holds none. */
  lemma NoCrlfTail(s: string)
    requires |s| >= 1
    ensures NoCrlf(s) <==> !CrlfAt(s, 0) && NoCrlf(s[1..])
  {
    if !CrlfAt(s, 0) && NoCrlf(s[1..]) {
      forall i: nat | i < |s| ensures !CrlfAt(s, i) {
        if i > 0 { assert !CrlfAt(s[1..], i - 1); }
      }
    }
    if NoCrlf(s) {
      forall i: nat | i < |s[1..]| ensures !CrlfAt(s[1..], i) {
        assert !CrlfAt(s, i + 1);
      }
    }
  }

  /** The reservoir split at its first CRLF: the line before it and what
      remains after it; None when the reservoir holds no CRLF. */
  function CutLine(s: string): (r: Option<(string, string)>)
    ensures r.Some? ==> s == r.value.0 + CRLF + r.value.1 && NoCrlf(r.value.0)
    ensures r.None? <==> NoCrlf(s)
  {
    if |s| < 2 then None
    else if s[0] == '\r' && s[1] == '\n' then
      assert CrlfAt(s, 0);
      Some(([], s[2..]))
    else
      NoCrlfTail(s);
      match CutLine(s[1..])
      case None =>
        None
      case Some(p) =>
        var l := [s[0]] + p.0;
        assert s == l + CRLF + p.1;
        assert !CrlfAt(l, 0);
        NoCrlfTail(l);
        assert l[1..] == p.0;
        Some((l, p.1))
  }

  /** A line without CRLF followed by CRLF is cut off exactly: the line
      reservoir gives back what was framed into it. */
  lemma {:induction false} CutLineOfFramed(l: string, rest: string)
    requires NoCrlf(l)
    ensures CutLine(l + CRLF + rest) == Some((l, rest))
  {
    var s := l + CRLF + rest;
    if l == [] {
      assert s == CRLF + rest;
      assert s[2..] == rest;
    } else {
      assert s[1..] == l[1..] + CRLF + rest;
      assert NoCrlf(l[1..]) by {
        forall i: nat ensures !CrlfAt(l[1..], i) {
          if CrlfAt(l[1..], i) { assert CrlfAt(l, i + 1); }
        }
      }
      CutLineOfFramed(l[1..], rest);
      assert !(s[0] == '\r' && s[1] == '\n') by {
        if |l| > 1 { assert !CrlfAt(l, 0); } else { assert s[1] == '\r'; }
      }
      assert [s[0]] + l[1..] == l;
    }
  }

  /** The lines a reservoir yields when getline is called until no CRLF is
      left, and the partial line that remains. */
  function Drain(s: string): (seq<string>, string)
    decreases |s|
  {
    match CutLine(s)
    case None => ([], s)
    case Some(p) =>
      var d := Drain(p.1);
      ([p.0] + d.0, d.1)
  }

  /** CRLF-framed lines, in order. */
  function Frame(lines: seq<string>): string
  {
    if lines == [] then "" else lines[0] + CRLF + Frame(lines[1..])
  }

  /** However the bytes arrived, a reservoir holding framed lines and an
      unterminated tail is drained into exactly those lines and that tail. */
  lemma {:induction false} DrainFramed(lines: seq<string>, tail: string)
    requires forall i :: 0 <= i < |lines| ==> NoCrlf(lines[i])
    requires NoCrlf(tail)
    ensures Drain(Frame(lines) + tail) == (lines, tail)
  {
    if lines == [] {
      assert Frame(lines) + tail == tail;
    } else {
      var rest := Frame(lines[1..]) + tail;
      assert Frame(lines) + tail == lines[0] + CRLF + rest;
      CutLineOfFramed(lines[0], rest);
      DrainFramed(lines[1..], tail);
      assert [lines[0]] + lines[1..] == lines;
    }
  }

  /** The reservoir of fd as `_rems[fd]` reads it: empty when absent. */
  function Rem(rems: map<int, string>, fd: int): string
  {
    if fd in rems then rems[fd] else ""
  }

  /** Index at which readSocket terminates the received bytes (corrected:
      right after them, inside the MAX_PACKET_SIZE + 1 buffer). */
  function NulIndex(n: nat): (i: nat)
    requires n <= MAX_PACKET_SIZE
    ensures i < MAX_PACKET_SIZE + 1
    ensures i == n
  {
    n
  }

  /** Index readSocket writes its NUL to, as written: `buf[recvBytes + 1]`,
      one past the corrected index and so outside the buffer exactly when
      the packet is full. */
  function NulIndexAsWritten(n: nat): (i: nat)
    ensures n <= MAX_PACKET_SIZE ==> i == NulIndex(n) + 1
    ensures i < MAX_PACKET_SIZE + 1 <==> n < MAX_PACKET_SIZE
  {
    n + 1
  }

  /** A full packet makes the as-written NUL land one past the buffer. */
  lemma NulWriteOverflows()
    ensures NulIndexAsWritten(MAX_PACKET_SIZE) == MAX_PACKET_SIZE + 1
  {
  }

  predicate CanRead(perm: bv32) { perm & PERM_READ != 0 }

  /** After a successful read the read permission is withdrawn (corrected
      `perm &= ~PERM_READ`): that bit is cleared and every other bit kept. */
  function PermAfterRead(perm: bv32): (r: bv32)
    ensures !CanRead(r)
    ensures r | PERM_READ == perm | PERM_READ
  {
    perm & !PERM_READ
  }

  /** The permission update as written: `perm |= ~PERM_READ`.  The read
      bit keeps its value and every other bit is set. */
  function PermAfterReadAsWritten(perm: bv32): (r: bv32)
    ensures CanRead(r) <==> CanRead(perm)
    ensures r | PERM_READ == 0xFFFF_FFFF
  {
    perm | !PERM_READ
  }

  /** As written, the update sets every other bit and never clears the read bit. */
  lemma ReadPermNeverCleared(perm: bv32)
    requires CanRead(perm)
    ensures CanRead(PermAfterReadAsWritten(perm))
    ensures PermAfterReadAsWritten(perm) == 0xFFFF_FFFF
  {
  }

  /** The reservoirs after getline's optional read: a read happens only with
      the read permission, and only received bytes change anything. */
  function Filled(rems: map<int, string>, fd: int, perm: bv32, r: Recv): map<int, string>
  {
    if CanRead(perm) && r.Received? then rems[fd := Rem(rems, fd) + UpToNul(r.bytes)] else rems
  }

  /** std::string::find("\r\n"): the first CRLF, if any. */
  method FindCrlf(s: string) returns (pos: Option<nat>)
    ensures pos.None? <==> NoCrlf(s)
    ensures pos.Some? ==> CrlfAt(s, pos.value) && forall i: nat :: i < pos.value ==> !CrlfAt(s, i)
  {
    var i := 0;
    while i + 1 < |s| && !(s[i] == '\r' && s[i + 1] == '\n')
      invariant 0 <= i <= |s|
      invariant forall k: nat :: k < i ==> !CrlfAt(s, k)
    {
      i := i + 1;
    }
    if i + 1 < |s| {
      assert CrlfAt(s, i);
      pos := Some(i);
    } else {
      assert forall k: nat :: k >= i ==> !CrlfAt(s, k);
      pos := None;
    }
  }

  /** The socket descriptor and its permission bits (`struct s_sock`). */
  class Sock {
    var fd: int
    var perm: bv32

    constructor(fd: int, perm: bv32)
      ensures this.fd == fd && this.perm == perm
    {
      this.fd := fd;
      this.perm := perm;
    }
  }

  class ReadSock {
    /** `_rems`: the received, unconsumed text of each descriptor. */
    var rems: map<int, string>

    constructor()
      ensures rems == map[]
    {
      rems := map[];
    }

    /** readSocket (src/ReadSock.cpp:7-25) with the recv call given as `r`:
        an error leaves everything alone, a shutdown drops the reservoir, and
        received bytes are appended up to their first NUL, since they are
        appended as a C string. */
    method ReadSocket(fd: int, r: Recv) returns (st: Status)
      requires RecvFits(r)
      modifies this
      ensures r.RecvFailed? ==> st == RecvEndNb && rems == old(rems)
      ensures r.PeerClosed? ==> st == RecvEnd && rems == old(rems) - {fd}
      ensures r.Received? ==> st == RecvDone && rems == old(rems)[fd := Rem(old(rems), fd) + UpToNul(r.bytes)]
    {
      match r
      case RecvFailed =>
        st := RecvEndNb;
      case PeerClosed =>
        rems := rems - {fd};
        st := RecvEnd;
      case Received(bytes) =>
        var buf := new char[MAX_PACKET_SIZE + 1](_ => '\0');
        forall i | 0 <= i < |bytes| {
          buf[i] := bytes[i];
        }
        buf[NulIndex(|bytes|)] := '\0';
        assert buf[..] == bytes + buf[|bytes|..];
        UpToNulBeforeNul(bytes, buf[|bytes|..]);
        rems := rems[fd := Rem(rems, fd) + UpToNul(buf[..])];
        st := RecvDone;
    }

    /** getline (src/ReadSock.cpp:27-55): with a negative descriptor nothing
        happens; with the read permission the socket is read first, and a
        shutdown ends the call; then the first CRLF-terminated line, if any,
        is cut off the front of the reservoir.  `_rems[fd]` creates an empty
        reservoir for a descriptor that has none.  Reservoirs of other
        descriptors are never touched. */
    method Getline(sock: Sock, r: Recv, line0: string) returns (st: Status, line: string)
      requires RecvFits(r)
      modifies this, sock
      ensures sock.fd == old(sock.fd)
      ensures old(sock.fd) < 0 ==>
                st == InvalidFd && line == line0 && rems == old(rems) && sock.perm == old(sock.perm)
      ensures old(sock.fd) >= 0 && CanRead(old(sock.perm)) && r.PeerClosed? ==>
                st == RecvEnd && line == line0 && rems == old(rems) - {sock.fd} && sock.perm == old(sock.perm)
      ensures old(sock.fd) >= 0 ==>
                sock.perm == if CanRead(old(sock.perm)) && r.Received? then PermAfterRead(old(sock.perm)) else old(sock.perm)
      ensures var fd := old(sock.fd);
              var mid := Filled(old(rems), fd, old(sock.perm), r);
              fd >= 0 && !(CanRead(old(sock.perm)) && r.PeerClosed?) ==>
                && (st == LineFound || st == LineNotFound)
                && (st == LineNotFound <==> NoCrlf(Rem(mid, fd)))
                && (st == LineNotFound ==> line == line0 && rems == mid[fd := Rem(mid, fd)])
                && (st == LineFound ==> fd in rems && Rem(mid, fd) == line + CRLF + rems[fd]
                                        && NoCrlf(line) && rems == mid[fd := rems[fd]])
      ensures forall k :: k != old(sock.fd) ==> (k in rems <==> k in old(rems))
      ensures forall k :: k != old(sock.fd) && k in rems ==> rems[k] == old(rems)[k]
    {
      var fd := sock.fd;
      line := line0;
      if fd < 0 {
        return InvalidFd, line0;
      }
      if sock.perm & PERM_READ != 0 {
        var status := ReadSocket(fd, r);
        if status == RecvEnd {
          return status, line0;
        }
        if status == RecvDone {
          sock.perm := PermAfterRead(sock.perm);
        }
      }
      st, line := TakeLine(fd, line0);
    }

    /** The second half of getline: the reservoir of fd (created empty when
        absent) loses its first CRLF-terminated line, which is returned. */
    method TakeLine(fd: int, line0: string) returns (st: Status, line: string)
      modifies this
      ensures st == LineFound || st == LineNotFound
      ensures st == LineNotFound <==> NoCrlf(Rem(old(rems), fd))
      ensures st == LineNotFound ==> line == line0 && rems == old(rems)[fd := Rem(old(rems), fd)]
      ensures st == LineFound ==> fd in rems && Rem(old(rems), fd) == line + CRLF + rems[fd]
                                  && NoCrlf(line) && rems == old(rems)[fd := rems[fd]]
    {
      var s := Rem(rems, fd);
      rems := rems[fd := s];
      var pos := FindCrlf(s);
      if pos.None? {
        return LineNotFound, line0;
      }
      var p := pos.value;
      line := s[..p];
      assert NoCrlf(line) by {
        forall i: nat | i < |line| ensures !CrlfAt(line, i) {
          if CrlfAt(line, i) { assert CrlfAt(s, i); }
        }
      }
      assert s == line + CRLF + s[p + 2..];
      rems := rems[fd := s[p + 2..]];
      st := LineFound;
    }
  }
}
