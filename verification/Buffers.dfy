/** Writing into a byte buffer: what memcpy and the write pointers of the C sources do to it. */
module Buffers {
  import opened Machine

  /** `s` with `part` written over it at `at`. */
  function Splice(s: seq<u8>, at: nat, part: seq<u8>): (r: seq<u8>)
    requires at + |part| <= |s|
    ensures |r| == |s|
  {
    s[..at] + part + s[at + |part|..]
  }

  lemma SpliceAt(s: seq<u8>, at: nat, part: seq<u8>, i: nat)
    requires at + |part| <= |s| && i < |s|
    ensures Splice(s, at, part)[i] == if at <= i < at + |part| then part[i - at] else s[i]
  {
  }

  lemma SpliceTwice(s: seq<u8>, at: nat, x: seq<u8>, y: seq<u8>)
    requires at + |x| + |y| <= |s|
    ensures Splice(Splice(s, at, x), at + |x|, y) == Splice(s, at, x + y)
  {
  }

  /** `done` has been written over `was` at `at`, and nothing else has changed. */
  ghost predicate Appended(was: seq<u8>, now: seq<u8>, at: nat, done: seq<u8>) {
    at + |done| <= |was| && now == Splice(was, at, done)
  }

  lemma StartsAppending(was: seq<u8>, at: nat)
    requires at <= |was|
    ensures Appended(was, was, at, [])
  {
  }

  lemma {:induction false} Appends(was: seq<u8>, now: seq<u8>, at: nat, done: seq<u8>, more: seq<u8>)
    requires Appended(was, now, at, done) && at + |done| + |more| <= |was|
    ensures |now| == |was|
    ensures Appended(was, Splice(now, at + |done|, more), at, done + more)
  {
    SpliceTwice(was, at, done, more);
  }

  lemma EndsAppending(was: seq<u8>, now: seq<u8>, at: nat, done: seq<u8>)
    requires Appended(was, now, at, done)
    ensures at + |done| <= |was| && now == Splice(was, at, done)
  {
  }

  lemma SpliceNothing(s: seq<u8>, at: nat)
    requires at <= |s|
    ensures Splice(s, at, []) == s
  {
  }

  /** memcpy into `buf` at `at`. */
  method Copy(buf: array<u8>, at: nat, bytes: seq<u8>)
    requires at + |bytes| <= buf.Length
    modifies buf
    ensures buf[..] == Splice(old(buf[..]), at, bytes)
  {
    forall i | 0 <= i < |bytes| {
      buf[at + i] := bytes[i];
    }
  }

  method Put(buf: array<u8>, at: nat, value: u8)
    requires at < buf.Length
    modifies buf
    ensures buf[..] == Splice(old(buf[..]), at, [value])
  {
    buf[at] := value;
  }
}
