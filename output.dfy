/** The output bitmap file and the write-all loop that fills it. The file is
    opened for writing and created when missing, but never truncated, so
    writes land over whatever an older file held. How much each write(2)
    accepts is decided by the environment: a script of results handed to the
    file when it is made. */
module Output {
  import opened Bytes

  /** What one write(2) of len bytes returns when the environment's next
      scripted result is the head of `script`: with no script left every write
      is complete; a negative result is an error; otherwise the scripted count,
      never more than len, is taken (a 0 takes nothing). */
  function Accepted(script: seq<int>, len: nat): (n: int)
    ensures n == -1 || 0 <= n <= len
    ensures |script| == 0 ==> n == len
    ensures |script| > 0 ==> (n < 0 <==> script[0] < 0)
    ensures |script| > 0 && 0 <= script[0] <= len ==> n == script[0]
    ensures |script| > 0 && script[0] > len ==> n == len
  {
    if |script| == 0 then len
    else if script[0] < 0 then -1
    else if script[0] > len then len
    else script[0]
  }

  /** The script after one write has used its head. */
  function Rest(script: seq<int>): seq<int> {
    if |script| == 0 then [] else script[1..]
  }

  /** No scripted write fails. */
  predicate NoErrors(script: seq<int>) {
    forall i :: 0 <= i < |script| ==> script[i] >= 0
  }

  class OutputFile {
    /** Whether the file exists on disk. */
    var present: bool
    var contents: seq<byte>
    var isOpen: bool
    /** The file offset of the open descriptor. */
    var pos: nat
    /** Results of the coming write(2) calls. */
    var script: seq<int>
    /** Whether open(2) of the path with O_WRONLY | O_CREAT succeeds; it can
        fail for an existing file too (no write permission, a directory, a
        read-only filesystem). */
    const openable: bool

    ghost predicate Valid()
      reads this
    {
      pos <= |contents| && (isOpen ==> present) && (!present ==> contents == [])
    }

    constructor (present: bool, contents: seq<byte>, openable: bool, script: seq<int>)
      requires present || contents == []
      ensures Valid() && !isOpen && pos == 0
      ensures this.present == present && this.contents == contents
      ensures this.openable == openable && this.script == script
    {
      this.present := present;
      this.contents := contents;
      this.isOpen := false;
      this.pos := 0;
      this.script := script;
      this.openable := openable;
    }

    /** open(path, O_WRONLY | O_CREAT): on success a missing file is created
        empty, an existing file keeps its bytes, and the offset is 0; a failure
        changes nothing. */
    method Open() returns (ok: bool)
      requires Valid() && !isOpen
      modifies this
      ensures Valid()
      ensures ok <==> openable
      ensures ok ==> isOpen && present && pos == 0 && script == old(script)
      ensures ok && old(present) ==> contents == old(contents)
      ensures ok && !old(present) ==> contents == []
      ensures !ok ==> (present == old(present) && contents == old(contents) && !isOpen
                       && pos == old(pos) && script == old(script))
    {
      if openable {
        present := true;
        isOpen := true;
        pos := 0;
        ok := true;
      } else {
        ok := false;
      }
    }

    /** write(fd, data, |data|): the accepted prefix of data is written at the
        current offset, which then moves past it; an error changes nothing. */
    method Write(data: seq<byte>) returns (n: int)
      requires Valid() && isOpen
      modifies this
      ensures Valid() && isOpen && present == old(present)
      ensures n == Accepted(old(script), |data|) && script == Rest(old(script))
      ensures n >= 0 ==> (contents == Overwrite(old(contents), old(pos), data[..n])
                          && pos == old(pos) + n)
      ensures n < 0 ==> contents == old(contents) && pos == old(pos)
    {
      n := Accepted(script, |data|);
      script := Rest(script);
      if n >= 0 {
        contents := Overwrite(contents, pos, data[..n]);
        pos := pos + n;
      }
    }

    /** close(fd). */
    method Close()
      requires Valid()
      modifies this
      ensures Valid() && !isOpen
      ensures present == old(present) && contents == old(contents)
      ensures pos == old(pos) && script == old(script)
    {
      isOpen := false;
    }
  }

  /** The outcome of the write-all loop: whether it finished, how many bytes
      it wrote, and the script it left. */
  datatype Drained = Drained(ok: bool, written: nat, rest: seq<int>)

  /** The write-all loop as a recursion: one write of the remaining len - done
      bytes; stop at an error or once everything is written. It ends because
      every write that leaves bytes over uses up one scripted result. */
  function Drain(script: seq<int>, len: nat, done: nat): (d: Drained)
    requires done <= len
    ensures d.written <= len
    ensures d.ok ==> d.written == len
    ensures !d.ok && done < len ==> d.written < len
    decreases |script|
  {
    var n := Accepted(script, len - done);
    if n < 0 then Drained(false, done, Rest(script))
    else if done + n < len then Drain(Rest(script), len, done + n)
    else Drained(true, done + n, Rest(script))
  }

  /** When no scripted write fails, the loop writes everything. */
  lemma {:induction false} DrainNoErrors(script: seq<int>, len: nat, done: nat)
    requires done <= len && NoErrors(script)
    ensures Drain(script, len, done).ok
    decreases |script|
  {
    var n := Accepted(script, len - done);
    if n >= 0 && done + n < len {
      assert NoErrors(Rest(script));
      DrainNoErrors(Rest(script), len, done + n);
    }
  }

  /** The loop stops short only at an error, with no retry after it: the last
      result it used is negative, every earlier one was not, and the results
      after it are left unused. */
  lemma {:induction false} DrainFailsOnError(script: seq<int>, len: nat, done: nat)
    requires done <= len && !Drain(script, len, done).ok
    ensures var d := Drain(script, len, done);
      var k := |script| - |d.rest| - 1;
      && 0 <= k < |script| && script[k] < 0 && d.rest == script[k + 1..]
      && forall i :: 0 <= i < k ==> script[i] >= 0
    decreases |script|
  {
    var n := Accepted(script, len - done);
    if n >= 0 {
      DrainFailsOnError(Rest(script), len, done + n);
    }
  }

  /** A write that takes no bytes of an unfinished buffer is followed by
      another write of the same bytes. */
  lemma DrainRetriesAfterZero(script: seq<int>, len: nat, done: nat)
    requires done < len && |script| > 0 && script[0] == 0
    ensures Drain(script, len, done) == Drain(script[1..], len, done)
  {
  }

  /** A zero result followed by an error: the loop writes again after the
      zero and fails, having written nothing. */
  lemma ZeroThenError()
    ensures Drain([0, -1], 1, 0) == Drained(false, 0, [])
  {
    DrainRetriesAfterZero([0, -1], 1, 0);
  }

  /** Writing the next n bytes of buf after its first w extends the write. */
  lemma WriteMore(s: seq<byte>, off: nat, buf: seq<byte>, w: nat, n: nat)
    requires off <= |s| && w + n <= |buf|
    ensures off + w <= |Overwrite(s, off, buf[..w])|
    ensures Overwrite(Overwrite(s, off, buf[..w]), off + w, buf[w..][..n]) == Overwrite(s, off, buf[..w + n])
  {
    OverwriteTwice(s, off, buf[..w], buf[w..][..n]);
    assert buf[..w] + buf[w..][..n] == buf[..w + n];
  }

  /** Write all of buf, retrying after short writes and giving up at the first
      error (the do/while loops around write(2)). Whatever was written is in the
      file at the offset the loop started from. */
  method WriteAll(out: OutputFile, buf: seq<byte>) returns (ok: bool, written: nat)
    requires out.Valid() && out.isOpen
    modifies out
    ensures out.Valid() && out.isOpen && out.present == old(out.present)
    ensures Drained(ok, written, out.script) == Drain(old(out.script), |buf|, 0)
    ensures out.contents == Overwrite(old(out.contents), old(out.pos), buf[..written])
    ensures out.pos == old(out.pos) + written
  {
    ghost var script0, contents0, pos0 := out.script, out.contents, out.pos;
    ok, written := true, 0;
    var started := false;
    while ok && (!started || written < |buf|)
      invariant out.Valid() && out.isOpen && out.present == old(out.present)
      invariant written <= |buf|
      invariant !started ==> written == 0 && out.script == script0
      invariant ok && (!started || written < |buf|) ==>
        Drain(script0, |buf|, 0) == Drain(out.script, |buf|, written)
      invariant !(ok && (!started || written < |buf|)) ==>
        Drain(script0, |buf|, 0) == Drained(ok, written, out.script)
      invariant out.contents == Overwrite(contents0, pos0, buf[..written])
      invariant out.pos == pos0 + written
      decreases ok, !started, |out.script|, |buf| - written
    {
      started := true;
      var n := out.Write(buf[written..]);
      if n < 0 {
        ok := false;
      } else {
        WriteMore(contents0, pos0, buf, written, n);
        written := written + n;
      }
    }
  }
}
