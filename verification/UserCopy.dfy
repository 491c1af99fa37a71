/** Copies between kernel and user memory: uvm_copyin, uvm_copyout and uvm_copyin_str
    (src/kernel/mem/uvm.c:16-77), on the flat translation of a page table and on memory as
    bytes. As written the first two advance by a whole page after every piece; the version
    with the step equal to the piece is what their callers need. */
module UserCopy {
  import opened Layout
  import opened Outcomes
  import PhysMem
  import Spaces
  import Kvm
  import HeapCopy

  newtype Byte = b: int | 0 <= b < 256

  /** The contents of one physical page. */
  type Bytes = s: seq<Byte> | |s| == 4096 witness seq(4096, _ => 0)

  predicate Readable(flat: map<nat, nat>, v: nat) {
    v < PAGES && v in flat && HasV(flat[v]) && HasU(flat[v])
  }

  predicate Writable(flat: map<nat, nat>, v: nat) {
    Readable(flat, v) && HasW(flat[v])
  }

  predicate Usable(flat: map<nat, nat>, v: nat, write: bool) {
    if write then Writable(flat, v) else Readable(flat, v)
  }

  /** Every user page has its frame in memory. */
  ghost predicate Backs(flat: map<nat, nat>, frames: map<nat, Bytes>) {
    forall v :: Readable(flat, v) ==> PteToPa(flat[v]) in frames
  }

  /** Distinct user pages have distinct frames. */
  ghost predicate Unshared(flat: map<nat, nat>) {
    forall v, w :: Readable(flat, v) && Readable(flat, w) && v != w ==> PteToPa(flat[v]) != PteToPa(flat[w])
  }

  // ---------- the user memory of a process ----------

  /** A page of words as the bytes it holds. */
  function BytesOf(f: PhysMem.Frame): Bytes {
    seq(4096, i requires 0 <= i < 4096 => HeapCopy.PageByte(f, i) as Byte)
  }

  /** The handed-out user frames, as bytes. */
  ghost function FramesIn(mem: PhysMem.Memory, uowned: set<nat>): map<nat, Bytes> {
    map p | p in uowned && p in mem :: BytesOf(mem[p])
  }

  lemma UserPageOwned(s: Spaces.Space, v: nat)
    requires Spaces.Inv(s) && Readable(s.flat, v)
    ensures v < TF_PAGE && PteToPa(s.flat[v]) in s.uowned
  {
    assert Opened(Closed.Agreement, 0);
  }

  lemma UserPagesApart(s: Spaces.Space, v: nat, w: nat)
    requires Spaces.Inv(s) && v in s.flat && w in s.flat && v < TF_PAGE && w < TF_PAGE && v != w
    ensures PteToPa(s.flat[v]) != PteToPa(s.flat[w])
  {
    assert Opened(Closed.Agreement, 0);
    assert Kvm.Differ(v, w);
  }

  /** In every reachable address space the user pages are in memory and unshared: what the copies
      below ask for holds of every process. */
  lemma ProcessUsable(s: Spaces.Space, mem: PhysMem.Memory)
    requires Spaces.Inv(s) && s.uowned <= mem.Keys
    ensures Backs(s.flat, FramesIn(mem, s.uowned)) && Unshared(s.flat)
  {
    forall v: nat | Readable(s.flat, v)
      ensures PteToPa(s.flat[v]) in FramesIn(mem, s.uowned)
    {
      UserPageOwned(s, v);
    }
    forall v: nat, w: nat | Readable(s.flat, v) && Readable(s.flat, w) && v != w
      ensures PteToPa(s.flat[v]) != PteToPa(s.flat[w])
    {
      UserPageOwned(s, v);
      UserPageOwned(s, w);
      UserPagesApart(s, v, w);
    }
  }

  /** The byte a user process sees at address a. */
  function ByteAt(flat: map<nat, nat>, frames: map<nat, Bytes>, a: nat): Byte {
    if Page(a) in flat && PteToPa(flat[Page(a)]) in frames then frames[PteToPa(flat[Page(a)])][a % 4096] else 0
  }

  /** The byte the kernel sees at address a. */
  function KByte(kernel: map<nat, Byte>, a: nat): Byte {
    if a in kernel then kernel[a] else 0
  }

  lemma SamePage(a: nat, b: nat)
    requires a <= b && a % 4096 + (b - a) < 4096
    ensures Page(b) == Page(a) && b % 4096 == a % 4096 + (b - a)
  {
  }

  function PieceLen(a: nat, n: nat): nat {
    if n < 4096 - a % 4096 then n else 4096 - a % 4096
  }

  // ---------- ranges ----------

  /** All pages of [a, a + n) may be used by the user, for writing if `write`. */
  ghost predicate RangeOk(flat: map<nat, nat>, a: nat, n: nat, write: bool) {
    n > 0 ==> forall v: nat :: Page(a) <= v && v * 4096 < a + n ==> Usable(flat, v, write)
  }

  predicate NthOk(flat: map<nat, nat>, a: nat, i: nat, write: bool) { Usable(flat, Page(a) + i, write) }

  /** The first n pages from the page of a on may be used. */
  ghost predicate FirstOk(flat: map<nat, nat>, a: nat, n: nat, write: bool) {
    forall i: nat :: i < n ==> NthOk(flat, a, i, write)
  }

  lemma RangeMore(flat: map<nat, nat>, a: nat, m: nat, n: nat, write: bool)
    requires RangeOk(flat, a, m, write) && 0 < n <= 4096 - (a + m) % 4096 && Usable(flat, Page(a + m), write)
    ensures RangeOk(flat, a, m + n, write)
  {
    forall v: nat | Page(a) <= v && v * 4096 < a + m + n
      ensures Usable(flat, v, write)
    {
      if v * 4096 >= a + m {
        assert v == Page(a + m);
      } else if m == 0 {
        assert v == Page(a);
      }
    }
  }

  lemma WholePagesOk(flat: map<nat, nat>, a: nat, len: nat, write: bool)
    requires a % 4096 == 0 && len % 4096 == 0
    ensures RangeOk(flat, a, len, write) <==> FirstOk(flat, a, len / 4096, write)
  {
    if RangeOk(flat, a, len, write) {
      forall i: nat | i < len / 4096
        ensures NthOk(flat, a, i, write)
      {
        PageStep(a, i);
      }
    }
    if FirstOk(flat, a, len / 4096, write) {
      forall v: nat | Page(a) <= v && v * 4096 < a + len
        ensures Usable(flat, v, write)
      {
        assert NthOk(flat, a, v - Page(a), write);
      }
    }
  }

  // ---------- the loop, for either direction ----------

  /** How far the loop advances after a piece. */
  function Advance(version: Version, piece: nat): nat { if version.AsWritten? then PGSIZE else piece }

  /** The remaining length, a uint64: as written it wraps when less than a page is left. */
  function Remaining(n: nat, step: nat): nat
    requires step <= PGSIZE
  {
    if step <= n then n - step else n + TWO64 - step
  }

  /** What n holds after i whole-page steps. */
  function Counter(len: nat, i: nat): nat {
    if i * 4096 <= len then len - i * 4096 else if i * 4096 <= len + TWO64 then len + TWO64 - i * 4096 else 0
  }

  /** Position of the loop: `done` bytes (or whole pages' worth of bytes) lie behind it; u is
      the next user address. */
  ghost predicate Position(version: Version, flat: map<nat, nat>, user: nat, len: nat, write: bool, u: nat, n: nat,
                           done: nat) {
    && len < TWO64 && u == user + done
    && if version.Repaired? then done + n == len && RangeOk(flat, user, done, write)
       else
         && done % 4096 == 0 && done / 4096 <= PAGES && n == Counter(len, done / 4096)
         && FirstOk(flat, user, done / 4096, write)
         && (len % 4096 == 0 ==> done <= len)
  }

  /** Ranges the version accepts. */
  ghost predicate Accepts(version: Version, flat: map<nat, nat>, user: nat, len: nat, write: bool) {
    if version.Repaired? then RangeOk(flat, user, len, write)
    else len % 4096 == 0 && FirstOk(flat, user, len / 4096, write)
  }

  /** How many of the i-th 4096 bytes of the range the version moves. */
  function Width(version: Version, user: nat, len: nat, i: nat): nat {
    if version.Repaired? then 4096 else PieceLen(user, Counter(len, i))
  }

  /** The loop gives up `done` bytes from the start: the page there is the first one that may not
      be used. As written that can lie beyond the range. */
  ghost predicate StopsAt(version: Version, flat: map<nat, nat>, user: nat, len: nat, write: bool, done: nat) {
    && !Usable(flat, Page(user + done), write) && done != len
    && if version.Repaired? then done < len && RangeOk(flat, user, done, write)
       else done % 4096 == 0 && FirstOk(flat, user, done / 4096, write) && (len % 4096 == 0 ==> done < len)
  }

  lemma Starts(version: Version, flat: map<nat, nat>, user: nat, len: nat, write: bool)
    requires len < TWO64
    ensures Position(version, flat, user, len, write, user, len, 0)
  {
  }

  lemma CounterNext(len: nat, i: nat)
    requires i < PAGES && len < TWO64 && Counter(len, i) > 0
    ensures Counter(len, i + 1) == Remaining(Counter(len, i), PGSIZE)
    ensures len % 4096 == 0 && i * 4096 <= len ==> (i + 1) * 4096 <= len && Counter(len, i) >= 4096
  {
  }

  lemma Steps(version: Version, flat: map<nat, nat>, user: nat, len: nat, write: bool, u: nat, n: nat, done: nat)
    requires Position(version, flat, user, len, write, u, n, done) && n > 0 && Usable(flat, Page(u), write)
    ensures var step := Advance(version, PieceLen(u, n));
      Position(version, flat, user, len, write, u + step, Remaining(n, step), done + step)
    ensures version.AsWritten? ==> u % 4096 == user % 4096
    ensures version.AsWritten? ==> PieceLen(u, n) == Width(version, user, len, done / 4096)
  {
    if version.Repaired? {
      RangeMore(flat, user, done, PieceLen(u, n), write);
    } else {
      var i := done / 4096;
      PageStep(user - user % 4096, i);
      assert Page(u) == Page(user) + i;
      assert NthOk(flat, user, i, write);
      CounterNext(len, i);
      assert (done + PGSIZE) / 4096 == i + 1;
    }
  }

  lemma Stops(version: Version, flat: map<nat, nat>, user: nat, len: nat, write: bool, u: nat, n: nat, done: nat)
    requires Position(version, flat, user, len, write, u, n, done)
    ensures n == 0 ==> Accepts(version, flat, user, len, write) && done == len
    ensures n > 0 && !Usable(flat, Page(u), write) ==>
      !Accepts(version, flat, user, len, write) && StopsAt(version, flat, user, len, write, done)
  {
    if version.AsWritten? {
      var i := done / 4096;
      PageStep(user - user % 4096, i);
      assert Page(u) == Page(user) + i;
      assert NthOk(flat, user, i, write) == Usable(flat, Page(u), write);
    }
  }

  // ---------- copyin ----------

  /** A copy: the version of the loop, the translations, the first user and kernel address, the
      length asked for. */
  datatype Job = Job(version: Version, flat: map<nat, nat>, user: nat, buffer: nat, len: nat)
  {
    /** The byte j bytes from the start is one of those moved once the loop is `done` bytes in. */
    predicate Moves(done: nat, j: nat) { j < done && j % 4096 < Width(version, user, len, j / 4096) }
  }

  /** Kernel memory has taken what a copy in moves in its first `done` bytes; nothing else has
      changed. */
  ghost predicate TookIn(job: Job, frames: map<nat, Bytes>, done: nat, kernel0: map<nat, Byte>,
                         kernel: map<nat, Byte>) {
    forall k {:trigger Opened(Closed.Copying, k)} :: Sealed(Closed.Copying, k) ==>
      forall a: nat :: KByte(kernel, a) == TakenByte(job, frames, done, kernel0, a)
  }

  ghost function TakenByte(job: Job, frames: map<nat, Bytes>, done: nat, kernel0: map<nat, Byte>, a: nat): Byte {
    if job.buffer <= a && job.Moves(done, a - job.buffer) then ByteAt(job.flat, frames, job.user + (a - job.buffer))
    else KByte(kernel0, a)
  }

  class Machine {
    var frames: map<nat, Bytes>       // physical user pages
    var kernel: map<nat, Byte>        // kernel memory, by address

    constructor (frames: map<nat, Bytes>, kernel: map<nat, Byte>)
      ensures this.frames == frames && this.kernel == kernel
    {
      this.frames, this.kernel := frames, kernel;
    }

    /** memmove from a user frame into the kernel. */
    method MoveIn(dst: nat, pa: nat, offset: nat, n: nat, ghost flat: map<nat, nat>, ghost u: nat)
      requires Page(u) in flat && pa == PteToPa(flat[Page(u)]) && pa in frames && offset == u % 4096
      requires offset + n <= 4096
      modifies this`kernel
      ensures forall a: nat ::
        KByte(kernel, a) == if dst <= a < dst + n then ByteAt(flat, frames, u + (a - dst)) else KByte(old(kernel), a)
    {
      var page := frames[pa];
      kernel := kernel + map a: nat | dst <= a < dst + n :: Nth(page, dst, offset, a);
      forall a | dst <= a < dst + n
        ensures KByte(kernel, a) == ByteAt(flat, frames, u + (a - dst))
      {
        SamePage(u, u + (a - dst));
      }
    }

    /** memmove from the kernel into a user frame: of all user bytes, those n change. */
    method MoveOut(pa: nat, offset: nat, src: nat, n: nat, ghost flat: map<nat, nat>, ghost u: nat)
      requires Unshared(flat) && Backs(flat, frames)
      requires Readable(flat, Page(u)) && pa == PteToPa(flat[Page(u)]) && pa in frames && offset == u % 4096
      requires offset + n <= 4096
      modifies this`frames
      ensures Backs(flat, frames)
      ensures forall a: nat :: Readable(flat, Page(a)) ==>
        ByteAt(flat, frames, a) ==
        if u <= a < u + n then KByte(kernel, src + (a - u)) else ByteAt(flat, old(frames), a)
    {
      ghost var before := frames;
      frames := frames[pa := Poked(frames[pa], offset, n, kernel, src)];
      forall a: nat | Readable(flat, Page(a))
        ensures ByteAt(flat, frames, a) ==
          if u <= a < u + n then KByte(kernel, src + (a - u)) else ByteAt(flat, before, a)
      {
        if Page(a) == Page(u) {
          assert a % 4096 - u % 4096 == a - u;
        } else if u <= a < u + n {
          SamePage(u, a);
          assert false;
        }
      }
    }
  }

  /** A page with n bytes of kernel memory written at an offset. */
  function Poked(page: Bytes, offset: nat, n: nat, kernel: map<nat, Byte>, src: nat): Bytes
    requires offset + n <= 4096
  {
    var r: seq<Byte> := page[..offset] + KBytes(kernel, src, n) + page[offset + n..];
    assert |r| == 4096;
    r
  }

  function KBytes(kernel: map<nat, Byte>, src: nat, n: nat): (r: seq<Byte>)
    ensures |r| == n && forall i :: 0 <= i < n ==> r[i] == KByte(kernel, src + i)
  {
    if n == 0 then [] else KBytes(kernel, src, n - 1) + [KByte(kernel, src + n - 1)]
  }

  function Nth(page: Bytes, dst: nat, offset: nat, a: nat): Byte
    requires dst <= a && offset + (a - dst) < 4096
  {
    page[offset + (a - dst)]
  }

  lemma TookNothing(job: Job, frames: map<nat, Bytes>, kernel: map<nat, Byte>)
    ensures TookIn(job, frames, 0, kernel, kernel)
  {
    assert forall a: nat :: KByte(kernel, a) == TakenByte(job, frames, 0, kernel, a);
  }

  /** One more piece, c bytes of the `step` bytes the loop advances by, is what the copy moves
      between done and done + step. */
  lemma MovesMore(job: Job, done: nat, c: nat, step: nat, j: nat)
    requires if job.version.Repaired? then step == c
             else done % 4096 == 0 && step == 4096 && c == Width(job.version, job.user, job.len, done / 4096)
    ensures job.Moves(done + step, j) <==> job.Moves(done, j) || done <= j < done + c
  {
    if job.version.AsWritten? && done <= j < done + step {
      assert j % 4096 == j - done && j / 4096 == done / 4096;
    }
  }

  lemma TookMore(job: Job, frames: map<nat, Bytes>, done: nat, c: nat, step: nat, u: nat, b: nat,
                 kernel0: map<nat, Byte>, k1: map<nat, Byte>, k2: map<nat, Byte>)
    requires TookIn(job, frames, done, kernel0, k1)
    requires if job.version.Repaired? then step == c
             else done % 4096 == 0 && step == 4096 && c == Width(job.version, job.user, job.len, done / 4096)
    requires u == job.user + done && b == job.buffer + done
    requires forall a: nat ::
      KByte(k2, a) == if b <= a < b + c then ByteAt(job.flat, frames, u + (a - b)) else KByte(k1, a)
    ensures TookIn(job, frames, done + step, kernel0, k2)
  {
    assert Opened(Closed.Copying, 0);
    forall a: nat
      ensures KByte(k2, a) == TakenByte(job, frames, done + step, kernel0, a)
    {
      assert KByte(k1, a) == TakenByte(job, frames, done, kernel0, a);
      if job.buffer <= a {
        MovesMore(job, done, c, step, a - job.buffer);
        assert u + (a - b) == job.user + (a - job.buffer);
      }
    }
  }

  /** uvm_copyin (uvm.c:16-34). Repaired, it succeeds exactly when the whole range is readable,
      and then takes exactly the user's bytes. As written it can succeed only for whole pages'
      worth of bytes, and leaves out the last src % 4096 of every 4096 bytes. Either way `done`
      tells how far it came, also when it gives up, and what it has taken until then. */
  method CopyIn(m: Machine, flat: map<nat, nat>, dst: nat, src: nat, len: nat, version: Version)
    returns (ret: int, ghost done: nat)
    requires Backs(flat, m.frames) && src < TWO64 && len < TWO64
    modifies m`kernel
    ensures ret == 0 || ret == -1
    ensures ret == 0 <==> Accepts(version, flat, src, len, false)
    ensures if ret == 0 then done == len else StopsAt(version, flat, src, len, false, done)
    ensures TookIn(Job(version, flat, src, dst, len), m.frames, done, old(m.kernel), m.kernel)
  {
    var n: nat, s: nat, d: nat := len, src, dst;
    ghost var job := Job(version, flat, src, dst, len);
    ret, done := 0, 0;
    Starts(version, flat, src, len, false);
    TookNothing(job, m.frames, m.kernel);
    while n > 0
      invariant Position(version, flat, src, len, false, s, n, done) && d == dst + done && s < TWO64 + VA_MAX
      invariant TookIn(job, m.frames, done, old(m.kernel), m.kernel)
      decreases if version.Repaired? then n else 2 * TWO64 - s
    {
      var offset := s % 4096;
      var copyLen := PieceLen(s, n);
      Stops(version, flat, src, len, false, s, n, done);
      if !Readable(flat, Page(s)) {
        return -1, done;
      }
      Steps(version, flat, src, len, false, s, n, done);
      ghost var k1 := m.kernel;
      m.MoveIn(d, PteToPa(flat[Page(s)]), offset, copyLen, flat, s);
      var step := Advance(version, copyLen);
      TookMore(job, m.frames, done, copyLen, step, s, d, old(m.kernel), k1, m.kernel);
      n, s, d, done := Remaining(n, step), s + step, d + step, done + step;
    }
    Stops(version, flat, src, len, false, s, n, done);
  }

  // ---------- copyout ----------

  /** User memory has got what a copy out moves in its first `done` bytes; no other user byte has
      changed. */
  ghost predicate GaveOut(job: Job, frames0: map<nat, Bytes>, frames: map<nat, Bytes>, done: nat,
                          kernel: map<nat, Byte>) {
    forall k {:trigger Opened(Closed.Copying, k)} :: Sealed(Closed.Copying, k) ==>
      forall a: nat :: Readable(job.flat, Page(a)) ==>
        ByteAt(job.flat, frames, a) == GivenByte(job, frames0, done, kernel, a)
  }

  ghost function GivenByte(job: Job, frames0: map<nat, Bytes>, done: nat, kernel: map<nat, Byte>, a: nat): Byte {
    if job.user <= a && job.Moves(done, a - job.user) then KByte(kernel, job.buffer + (a - job.user))
    else ByteAt(job.flat, frames0, a)
  }

  lemma GaveNothing(job: Job, frames: map<nat, Bytes>, kernel: map<nat, Byte>)
    ensures GaveOut(job, frames, frames, 0, kernel)
  {
    assert forall a: nat :: ByteAt(job.flat, frames, a) == GivenByte(job, frames, 0, kernel, a);
  }

  lemma GaveMore(job: Job, frames0: map<nat, Bytes>, f1: map<nat, Bytes>, f2: map<nat, Bytes>, done: nat, c: nat,
                 step: nat, u: nat, b: nat, kernel: map<nat, Byte>)
    requires GaveOut(job, frames0, f1, done, kernel)
    requires if job.version.Repaired? then step == c
             else done % 4096 == 0 && step == 4096 && c == Width(job.version, job.user, job.len, done / 4096)
    requires u == job.user + done && b == job.buffer + done
    requires forall a: nat :: Readable(job.flat, Page(a)) ==>
               ByteAt(job.flat, f2, a) == if u <= a < u + c then KByte(kernel, b + (a - u)) else ByteAt(job.flat, f1, a)
    ensures GaveOut(job, frames0, f2, done + step, kernel)
  {
    assert Opened(Closed.Copying, 0);
    forall a: nat | Readable(job.flat, Page(a))
      ensures ByteAt(job.flat, f2, a) == GivenByte(job, frames0, done + step, kernel, a)
    {
      assert ByteAt(job.flat, f1, a) == GivenByte(job, frames0, done, kernel, a);
      if job.user <= a {
        MovesMore(job, done, c, step, a - job.user);
        assert b + (a - u) == job.buffer + (a - job.user);
      }
    }
  }

  /** uvm_copyout (uvm.c:36-54), the same loop with a test for write permission. */
  method CopyOut(m: Machine, flat: map<nat, nat>, dst: nat, src: nat, len: nat, version: Version)
    returns (ret: int, ghost done: nat)
    requires Backs(flat, m.frames) && Unshared(flat) && dst < TWO64 && len < TWO64
    modifies m`frames
    ensures Backs(flat, m.frames)
    ensures ret == 0 || ret == -1
    ensures ret == 0 <==> Accepts(version, flat, dst, len, true)
    ensures if ret == 0 then done == len else StopsAt(version, flat, dst, len, true, done)
    ensures GaveOut(Job(version, flat, dst, src, len), old(m.frames), m.frames, done, m.kernel)
  {
    var n: nat, s: nat, d: nat := len, src, dst;
    ghost var job := Job(version, flat, dst, src, len);
    ret, done := 0, 0;
    Starts(version, flat, dst, len, true);
    GaveNothing(job, m.frames, m.kernel);
    while n > 0
      invariant Position(version, flat, dst, len, true, d, n, done) && s == src + done && d < TWO64 + VA_MAX
      invariant Backs(flat, m.frames)
      invariant GaveOut(job, old(m.frames), m.frames, done, m.kernel)
      decreases if version.Repaired? then n else 2 * TWO64 - d
    {
      var offset := d % 4096;
      var copyLen := PieceLen(d, n);
      Stops(version, flat, dst, len, true, d, n, done);
      if !Writable(flat, Page(d)) {
        return -1, done;
      }
      Steps(version, flat, dst, len, true, d, n, done);
      ghost var f1 := m.frames;
      m.MoveOut(PteToPa(flat[Page(d)]), offset, s, copyLen, flat, d);
      var step := Advance(version, copyLen);
      GaveMore(job, old(m.frames), f1, m.frames, done, copyLen, step, d, s, m.kernel);
      n, s, d, done := Remaining(n, step), s + step, d + step, done + step;
    }
    Stops(version, flat, dst, len, true, d, n, done);
  }

  /** Repaired, what a copy in has taken are all bytes up to where it has come. */
  lemma TookFirst(job: Job, frames: map<nat, Bytes>, done: nat, kernel0: map<nat, Byte>, kernel: map<nat, Byte>)
    requires job.version.Repaired? && TookIn(job, frames, done, kernel0, kernel)
    ensures forall a: nat ::
      KByte(kernel, a) == if job.buffer <= a < job.buffer + done
                          then ByteAt(job.flat, frames, job.user + (a - job.buffer)) else KByte(kernel0, a)
  {
    assert Opened(Closed.Copying, 0);
    forall a: nat
      ensures KByte(kernel, a) ==
        if job.buffer <= a < job.buffer + done then ByteAt(job.flat, frames, job.user + (a - job.buffer))
        else KByte(kernel0, a)
    {
      assert KByte(kernel, a) == TakenByte(job, frames, done, kernel0, a);
    }
  }

  lemma TookAll(job: Job, frames: map<nat, Bytes>, kernel0: map<nat, Byte>, kernel: map<nat, Byte>)
    requires job.version.Repaired? && TookIn(job, frames, job.len, kernel0, kernel)
    ensures forall a: nat ::
      KByte(kernel, a) == if job.buffer <= a < job.buffer + job.len
                          then ByteAt(job.flat, frames, job.user + (a - job.buffer)) else KByte(kernel0, a)
  {
    TookFirst(job, frames, job.len, kernel0, kernel);
  }

  lemma GaveAll(job: Job, frames0: map<nat, Bytes>, frames: map<nat, Bytes>, kernel: map<nat, Byte>)
    requires job.version.Repaired? && GaveOut(job, frames0, frames, job.len, kernel)
    ensures forall a: nat :: Readable(job.flat, Page(a)) ==>
      ByteAt(job.flat, frames, a) == if job.user <= a < job.user + job.len
                                     then KByte(kernel, job.buffer + (a - job.user)) else ByteAt(job.flat, frames0, a)
  {
    assert Opened(Closed.Copying, 0);
    forall a: nat | Readable(job.flat, Page(a))
      ensures ByteAt(job.flat, frames, a) ==
        if job.user <= a < job.user + job.len then KByte(kernel, job.buffer + (a - job.user))
        else ByteAt(job.flat, frames0, a)
    {
      assert ByteAt(job.flat, frames, a) == GivenByte(job, frames0, job.len, kernel, a);
    }
  }

  // ---------- when the loop as written does what is meant ----------

  /** On a usable range, both copies as written accept it and move every byte exactly for an
      empty range or whole pages from a page boundary. */
  lemma AsWrittenExact(job: Job, write: bool)
    requires job.version.AsWritten? && RangeOk(job.flat, job.user, job.len, write) && job.len < TWO64
    ensures Accepts(AsWritten, job.flat, job.user, job.len, write)
              && (forall j: nat :: j < job.len ==> job.Moves(job.len, j))
            <==> job.len == 0 || (job.len % 4096 == 0 && job.user % 4096 == 0)
    ensures job.len > 0 && job.len % 4096 != 0 ==> !Accepts(AsWritten, job.flat, job.user, job.len, write)
  {
    if job.len % 4096 == 0 && job.len > 0 {
      if job.user % 4096 == 0 {
        WholePagesOk(job.flat, job.user, job.len, write);
        forall j: nat | j < job.len
          ensures job.Moves(job.len, j)
        {
          InnerWidth(job.user, job.len, j / 4096);
        }
      } else {
        InnerWidth(job.user, job.len, 0);
        assert !job.Moves(job.len, 4095);
      }
    }
  }

  /** Before the counter wraps to or past its end, a piece is what lies behind the offset. */
  lemma InnerWidth(user: nat, len: nat, i: nat)
    requires len < TWO64 && Counter(len, i) >= 4096
    ensures Width(AsWritten, user, len, i) == 4096 - user % 4096
  {
  }

  lemma NthUsable(flat: map<nat, nat>, user: nat, n: nat, write: bool, done: nat)
    requires FirstOk(flat, user, n, write) && done % 4096 == 0 && done < n * 4096
    ensures Usable(flat, Page(user + done), write)
  {
    PageStep(user - user % 4096, done / 4096);
    assert Page(user + done) == Page(user) + done / 4096;
    assert NthOk(flat, user, done / 4096, write);
  }

  /** A length that is not whole pages, on a usable range: the loop as written answers -1, after
      moving the range, but for the ends of its pages, and then whole pieces beyond it, page after
      page until one may not be used. */
  lemma Overruns(job: Job, write: bool, done: nat, j: nat)
    requires job.version.AsWritten? && job.len < TWO64 && job.len % 4096 != 0
    requires FirstOk(job.flat, job.user, job.len / 4096 + 1, write)
    requires StopsAt(AsWritten, job.flat, job.user, job.len, write, done)
    ensures done >= (job.len / 4096 + 1) * 4096
    ensures job.len <= j < (job.len / 4096 + 1) * 4096 ==> !job.Moves(done, j)
    ensures (job.len / 4096 + 1) * 4096 <= j < done && j < PAGES * 4096 ==>
      (job.Moves(done, j) <==> j % 4096 < 4096 - job.user % 4096)
  {
    var i := job.len / 4096 + 1;
    if done < i * 4096 {
      NthUsable(job.flat, job.user, i, write, done);
    }
    if i * 4096 <= j < PAGES * 4096 {
      InnerWidth(job.user, job.len, j / 4096);
    }
  }

  /** The copy out of five words (sysfunc.c:39): they arrive, and so do the bytes behind them in
      kernel memory, one page's distance further on, where the next page is the user's too. */
  lemma FiveWords(flat: map<nat, nat>, f0: map<nat, Bytes>, f1: map<nat, Bytes>, user: nat, src: nat,
                  kernel: map<nat, Byte>, done: nat, j: nat)
    requires user % 4096 <= 4076 && Writable(flat, Page(user)) && StopsAt(AsWritten, flat, user, 20, true, done)
    requires GaveOut(Job(AsWritten, flat, user, src, 20), f0, f1, done, kernel)
    ensures !Accepts(AsWritten, flat, user, 20, true)
    ensures j < 20 ==> ByteAt(flat, f1, user + j) == KByte(kernel, src + j)
    ensures Writable(flat, Page(user) + 1) && 4096 <= j < 8192 - user % 4096 ==>
      ByteAt(flat, f1, user + j) == KByte(kernel, src + j)
  {
    var job := Job(AsWritten, flat, user, src, 20);
    if j < 20 {
      FirstPage(job, done, j);
      MovedAt(job, f0, f1, done, kernel, j);
    } else if Writable(flat, Page(user) + 1) && 4096 <= j < 8192 - user % 4096 {
      NextPage(job, done, j);
      MovedAt(job, f0, f1, done, kernel, j);
    }
  }

  lemma FirstPage(job: Job, done: nat, j: nat)
    requires job.version.AsWritten? && job.len == 20 && Writable(job.flat, Page(job.user)) && job.user % 4096 <= 4076
    requires StopsAt(AsWritten, job.flat, job.user, 20, true, done) && j < 20
    ensures job.Moves(done, j) && Page(job.user + j) == Page(job.user)
  {
    assert FirstOk(job.flat, job.user, 20 / 4096 + 1, true);
    Overruns(job, true, done, j);
    SamePage(job.user, job.user + j);
  }

  lemma NextPage(job: Job, done: nat, j: nat)
    requires job.version.AsWritten? && job.len == 20 && Writable(job.flat, Page(job.user))
    requires Writable(job.flat, Page(job.user) + 1)
    requires StopsAt(AsWritten, job.flat, job.user, 20, true, done) && 4096 <= j < 8192 - job.user % 4096
    ensures job.Moves(done, j) && Page(job.user + j) == Page(job.user) + 1
  {
    assert FirstOk(job.flat, job.user, 20 / 4096 + 1, true);
    Overruns(job, true, done, j);
    assert Page(job.user + 4096) == Page(job.user) + 1;
    assert done >= 8192;
    SamePage(job.user + 4096, job.user + j);
  }

  lemma MovedAt(job: Job, f0: map<nat, Bytes>, f1: map<nat, Bytes>, done: nat, kernel: map<nat, Byte>, j: nat)
    requires GaveOut(job, f0, f1, done, kernel) && job.Moves(done, j) && Readable(job.flat, Page(job.user + j))
    ensures ByteAt(job.flat, f1, job.user + j) == KByte(kernel, job.buffer + j)
  {
    assert Opened(Closed.Copying, 0);
    assert ByteAt(job.flat, f1, job.user + j) == GivenByte(job, f0, done, kernel, job.user + j);
    assert job.user + j - job.user == j;
  }

  /** Less than the full width is a difference that shows: some memory contents end up wrong. */
  lemma HoleShows(flat: map<nat, nat>, frames: map<nat, Bytes>, src: nat, len: nat)
    requires 0 < len < TWO64 && len % 4096 == 0 && src % 4096 != 0
    ensures exists kernel0: map<nat, Byte>, kernel: map<nat, Byte> ::
      && TookIn(Job(AsWritten, flat, src, 0, len), frames, len, kernel0, kernel)
      && !TookIn(Job(Repaired, flat, src, 0, len), frames, len, kernel0, kernel)
  {
    var job := Job(AsWritten, flat, src, 0, len);
    var kernel0 := Unlikes(flat, frames, src, len);
    var kernel := Taken(job, frames, kernel0);
    TakenIs(job, frames, kernel0, kernel);
    HoleByte(job, frames, kernel0);
    NotTaken(flat, frames, src, len, kernel0, kernel, 4095);
  }

  lemma HoleByte(job: Job, frames: map<nat, Bytes>, kernel0: map<nat, Byte>)
    requires job.version.AsWritten? && job.buffer == 0 && 0 < job.len < TWO64 && job.len % 4096 == 0
    requires job.user % 4096 != 0
    ensures TakenByte(job, frames, job.len, kernel0, 4095) == KByte(kernel0, 4095)
  {
    InnerWidth(job.user, job.len, 0);
  }

  lemma TakenIs(job: Job, frames: map<nat, Bytes>, kernel0: map<nat, Byte>, kernel: map<nat, Byte>)
    requires job.buffer == 0 && kernel == Taken(job, frames, kernel0) && kernel0.Keys == kernel.Keys
    ensures TookIn(job, frames, job.len, kernel0, kernel)
  {
    forall a: nat
      ensures KByte(kernel, a) == TakenByte(job, frames, job.len, kernel0, a)
    {
    }
  }

  ghost function Taken(job: Job, frames: map<nat, Bytes>, kernel0: map<nat, Byte>): (r: map<nat, Byte>)
    ensures forall a: nat :: a in r <==> a < job.len
    ensures forall a: nat :: a in r ==> r[a] == TakenByte(job, frames, job.len, kernel0, a)
  {
    map a: nat | 0 <= a < job.len :: TakenByte(job, frames, job.len, kernel0, a)
  }

  ghost function Unlikes(flat: map<nat, nat>, frames: map<nat, Bytes>, src: nat, len: nat): (r: map<nat, Byte>)
    ensures forall a: nat :: a in r <==> a < len
    ensures forall a: nat :: a in r ==> r[a] != ByteAt(flat, frames, src + a)
  {
    map a: nat | 0 <= a < len :: Unlike(flat, frames, src, a)
  }

  function Unlike(flat: map<nat, nat>, frames: map<nat, Bytes>, src: nat, a: nat): Byte {
    if ByteAt(flat, frames, src + a) == 0 then 1 else 0
  }

  lemma NotTaken(flat: map<nat, nat>, frames: map<nat, Bytes>, src: nat, len: nat, kernel0: map<nat, Byte>,
                 kernel: map<nat, Byte>, a: nat)
    requires a < len && KByte(kernel, a) != ByteAt(flat, frames, src + a)
    ensures !TookIn(Job(Repaired, flat, src, 0, len), frames, len, kernel0, kernel)
  {
    assert Opened(Closed.Copying, 0);
    assert KByte(kernel, a) != TakenByte(Job(Repaired, flat, src, 0, len), frames, len, kernel0, a);
  }

  /** copyout of some bytes followed by copyin of the same user range brings the same bytes
      back, and no user byte outside the range has changed. */
  lemma RoundTrip(out: Job, back: Job, f0: map<nat, Bytes>, f1: map<nat, Bytes>, k0: map<nat, Byte>, k1: map<nat, Byte>,
                  j: nat)
    requires out.version.Repaired? && back == out.(buffer := back.buffer) && RangeOk(out.flat, out.user, out.len, true)
    requires GaveOut(out, f0, f1, out.len, k0) && TookIn(back, f1, back.len, k0, k1)
    ensures j < out.len ==> KByte(k1, back.buffer + j) == KByte(k0, out.buffer + j)
    ensures Readable(out.flat, Page(j)) && !(out.user <= j < out.user + out.len) ==>
      ByteAt(out.flat, f1, j) == ByteAt(out.flat, f0, j)
  {
    assert Opened(Closed.Copying, 0);
    if j < out.len {
      assert Usable(out.flat, Page(out.user + j), true);
      assert KByte(k1, back.buffer + j) == TakenByte(back, f1, back.len, k0, back.buffer + j);
      assert out.user + (back.buffer + j - back.buffer) == out.user + j;
    }
  }

  // ---------- strings ----------

  /** The first i bytes from src on are readable and not zero. */
  ghost predicate NonZero(flat: map<nat, nat>, frames: map<nat, Bytes>, src: nat, i: nat) {
    forall j: nat :: j < i ==> Solid(flat, frames, src, j)
  }

  predicate Solid(flat: map<nat, nat>, frames: map<nat, Bytes>, src: nat, j: nat) {
    Readable(flat, Page(src + j)) && ByteAt(flat, frames, src + j) != 0
  }

  /** A string of k bytes, its terminator not counted, starts at src. */
  ghost predicate StringOf(flat: map<nat, nat>, frames: map<nat, Bytes>, src: nat, k: nat) {
    NonZero(flat, frames, src, k) && Readable(flat, Page(src + k)) && ByteAt(flat, frames, src + k) == 0
  }

  lemma NoString(flat: map<nat, nat>, frames: map<nat, Bytes>, src: nat, i: nat, max: nat)
    requires NonZero(flat, frames, src, i) && (i < max ==> !Readable(flat, Page(src + i)))
    ensures forall k: nat :: k < max ==> !StringOf(flat, frames, src, k)
  {
    forall k: nat | k < max
      ensures !StringOf(flat, frames, src, k)
    {
      assert k < i ==> Solid(flat, frames, src, k);
      assert i < k ==> !Solid(flat, frames, src, i);
    }
  }

  /** Readable bytes up to a terminator are a string, and there is no other at that address. */
  lemma StringThere(flat: map<nat, nat>, frames: map<nat, Bytes>, src: nat, k: nat)
    requires RangeOk(flat, src, k + 1, false) && ByteAt(flat, frames, src + k) == 0
    requires forall a: nat :: src <= a < src + k ==> ByteAt(flat, frames, a) != 0
    ensures StringOf(flat, frames, src, k)
  {
    forall j: nat | j < k
      ensures Solid(flat, frames, src, j)
    {
      assert Usable(flat, Page(src + j), false);
    }
    assert Usable(flat, Page(src + k), false);
  }

  lemma OneString(flat: map<nat, nat>, frames: map<nat, Bytes>, src: nat, k: nat, l: nat)
    requires StringOf(flat, frames, src, k) && StringOf(flat, frames, src, l)
    ensures k == l
  {
    assert k < l ==> Solid(flat, frames, src, k);
    assert l < k ==> Solid(flat, frames, src, l);
  }

  /** The frames of n pages in a row. */
  function FramesOf(flat: map<nat, nat>, v: nat, n: nat): set<nat>
    requires forall i: nat :: i < n ==> NthOk(flat, v * 4096, i, false)
  {
    if n == 0 then {} else
      assert NthOk(flat, v * 4096, n - 1, false);
      FramesOf(flat, v, n - 1) + {PteToPa(flat[v + n - 1])}
  }

  lemma {:induction false} FramesCount(flat: map<nat, nat>, frames: map<nat, Bytes>, v: nat, n: nat)
    requires Backs(flat, frames) && Unshared(flat) && forall i: nat :: i < n ==> NthOk(flat, v * 4096, i, false)
    ensures |FramesOf(flat, v, n)| == n && FramesOf(flat, v, n) <= frames.Keys
    ensures forall w: nat :: Readable(flat, w) && w >= v + n ==> PteToPa(flat[w]) !in FramesOf(flat, v, n)
  {
    if n > 0 {
      FramesCount(flat, frames, v, n - 1);
      assert NthOk(flat, v * 4096, n - 1, false);
    }
  }

  lemma Fewer(a: set<nat>, b: set<nat>)
    requires a <= b
    ensures |a| <= |b|
  {
    assert b == a + (b - a);
  }

  /** No more bytes in a row can be read than memory has: count, an int, cannot overflow. */
  lemma FewBytes(flat: map<nat, nat>, frames: map<nat, Bytes>, src: nat, n: nat)
    requires Backs(flat, frames) && Unshared(flat) && NonZero(flat, frames, src, n)
    ensures n < (|frames| + 2) * 4096
  {
    var v, k := Page(src) + 1, n / 4096;
    forall i: nat | i < k - 1
      ensures NthOk(flat, v * 4096, i, false)
    {
      var j := (v + i) * 4096 - src;
      assert j < n && Page(src + j) == v + i;
      assert Solid(flat, frames, src, j);
    }
    if k > 0 {
      FramesCount(flat, frames, v, k - 1);
      Fewer(FramesOf(flat, v, k - 1), frames.Keys);
    }
  }

  /** uvm_copyin_str (uvm.c:56-77): the length of the string with its terminator, if that
      lies within max_len readable bytes; and then exactly those bytes are taken. */
  method CopyInStr(m: Machine, flat: map<nat, nat>, dst: nat, src: nat, maxLen: nat) returns (ret: int, ghost done: nat)
    requires Backs(flat, m.frames) && Unshared(flat) && |m.frames| < 0x7_0000
    modifies m`kernel
    ensures ret == -1 || 0 < ret <= maxLen
    ensures ret < 0x8000_0000 && done < 0x8000_0000
    ensures ret > 0 ==>
      && StringOf(flat, m.frames, src, ret - 1)
      && TookIn(Job(Repaired, flat, src, dst, maxLen), m.frames, ret, old(m.kernel), m.kernel)
    ensures ret == -1 ==> (forall k: nat :: k < maxLen ==> !StringOf(flat, m.frames, src, k))
    ensures ret == -1 ==>
      && done <= maxLen && NonZero(flat, m.frames, src, done) && (done < maxLen ==> !Readable(flat, Page(src + done)))
      && TookIn(Job(Repaired, flat, src, dst, maxLen), m.frames, done, old(m.kernel), m.kernel)
  {
    var count: nat, s: nat, d: nat := 0, src, dst;
    ghost var job := Job(Repaired, flat, src, dst, maxLen);
    done := 0;
    TookNothing(job, m.frames, m.kernel);
    while count < maxLen
      invariant done == count <= maxLen && s == src + count && d == dst + count
      invariant NonZero(flat, m.frames, src, count)
      invariant TookIn(job, m.frames, count, old(m.kernel), m.kernel)
    {
      var offset := s % 4096;
      if !Readable(flat, Page(s)) {
        NoString(flat, m.frames, src, count, maxLen);
        FewBytes(flat, m.frames, src, done);
        return -1, done;
      }
      ghost var k1 := m.kernel;
      m.MoveIn(d, PteToPa(flat[Page(s)]), offset, 1, flat, s);
      TookMore(job, m.frames, count, 1, 1, s, d, old(m.kernel), k1, m.kernel);
      assert KByte(m.kernel, d) == ByteAt(flat, m.frames, s);
      assert Solid(flat, m.frames, src, count) <==> ByteAt(flat, m.frames, s) != 0;
      if KByte(m.kernel, d) == 0 {
        FewBytes(flat, m.frames, src, count);
        return count + 1, done + 1;
      }
      count, s, d := count + 1, s + 1, d + 1;
      done := count;
    }
    NoString(flat, m.frames, src, count, maxLen);
    FewBytes(flat, m.frames, src, done);
    return -1, done;
  }
}
