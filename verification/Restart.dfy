/**
  Resets in the middle of an update. RTC memory survives a reset, so the bootloader starts the copy again from the
  beginning, on flash as the interrupted copy left it.
*/
module Restart {
  import opened Bytes
  import opened Flash
  import opened EbootCommand
  import opened Eboot

  datatype Machine = Machine(mem: seq<byte>, rtc: seq<word>)

  /** The pending command is a copy of `n` sectors from `src` to `dst`. */
  ghost predicate Pending(rtc: seq<word>, src: nat, dst: nat, n: nat) {
    && |rtc| == WORDS && Accepts(rtc)
    && var cmd := Decode(rtc);
       cmd.action == ACTION_COPY_RAW && cmd.args[0] == src && cmd.args[1] == dst && SectorCount(cmd.args[2]) == n
  }

  /**
    A boot with that command that is reset at some point: in the copy, or while the command is being cleared. A
    compressed image may be written anywhere from `dst` on.
  */
  ghost predicate CutBoot(m: Machine, m': Machine, src: nat, dst: nat, n: nat) {
    if IsGzip(m.mem, src) then SameOutside(m'.mem, m.mem, dst, |m.mem|) && (m'.rtc == m.rtc || Clearing(m, m')) else
    || (m'.rtc == m.rtc && CutShort(m'.mem, m.mem, src, dst, n))
    || (InRange(m.mem, src, dst, n) && m'.mem == CopySectors(m.mem, src, dst, n) && Clearing(m, m'))
  }

  ghost predicate Clearing(m: Machine, m': Machine) {
    |m.rtc| == WORDS && (m'.rtc == m.rtc[0 := 0] || m'.rtc == m.rtc[0 := 0][WORDS - 1 := 0])
  }

  /** A run of boots, each cut by a reset; once the command is gone, flash is left alone. */
  ghost predicate Run(ms: seq<Machine>, src: nat, dst: nat, n: nat) {
    && ms != [] && Pending(ms[0].rtc, src, dst, n)
    && forall i :: 0 < i < |ms| ==> Next(ms[i - 1], ms[i], src, dst, n)
  }

  ghost predicate Next(m: Machine, m': Machine, src: nat, dst: nat, n: nat) {
    if Pending(m.rtc, src, dst, n) then CutBoot(m, m', src, dst, n) else m' == m
  }

  ghost predicate Disjoint(src: nat, dst: nat, n: nat) {
    dst + n * 0x1000 <= src || src + n * 0x1000 <= dst
  }

  /** Where flash may differ from what it was: the destination, less a bootloader sector that is already right. */
  ghost function FirstAtRisk(mem: seq<byte>, src: nat, dst: nat): nat {
    if BootSectorSame(mem, src, dst) then 0x1000 else dst
  }

  lemma MoveIsLocal(mem: seq<byte>, src: nat, dst: nat, size: nat)
    requires src + size <= |mem| && dst + size <= |mem|
    ensures SameOutside(Moved(mem, src, dst, size), mem, dst, dst + size)
    ensures BootSectorSame(mem, src, dst) && size >= 0x1000 ==>
              SameOutside(Moved(mem, src, dst, size), mem, 0x1000, dst + size)
  {
    forall i | 0 <= i < |mem|
      ensures Moved(mem, src, dst, size)[i] == if dst <= i < dst + size then mem[src + i - dst] else mem[i]
    {
      MovedAt(mem, src, dst, size, i);
    }
    if BootSectorSame(mem, src, dst) && size >= 0x1000 {
      forall i | 0 <= i < 0x1000
        ensures mem[src + i] == mem[i]
      {
        assert mem[..0x1000][i] == mem[src..src + 0x1000][i];
      }
    }
  }

  /** A cut copy touches only the destination; a bootloader sector that was right is not touched at all. */
  lemma CutIsLocal(now: seq<byte>, mem: seq<byte>, src: nat, dst: nat, n: nat)
    requires InRange(mem, src, dst, n) && n > 0 && (dst <= src || Disjoint(src, dst, n))
    requires CutShort(now, mem, src, dst, n)
    ensures SameOutside(now, mem, FirstAtRisk(mem, src, dst), dst + n * 0x1000)
  {
    hide CopySectors;
    hide Moved;
    var k :| 0 <= k <= n && CutAt(now, mem, src, dst, n, k);
    if k == 0 {
      NothingCut(mem, src, dst, n);
    } else {
      CopyIsMove(mem, src, dst, k);
      MoveIsLocal(mem, src, dst, k * 0x1000);
    }
  }

  /** From any flash that still has the source, the copy ends the same. */
  lemma SameSourceSameMove(now: seq<byte>, mem: seq<byte>, src: nat, dst: nat, n: nat)
    requires InRange(mem, src, dst, n) && n > 0 && Disjoint(src, dst, n)
    requires SameOutside(now, mem, dst, dst + n * 0x1000)
    ensures CopySectors(now, src, dst, n) == CopySectors(mem, src, dst, n)
  {
    hide CopySectors;
    CopyIsMove(mem, src, dst, n);
    CopyIsMove(now, src, dst, n);
    assert now[src..src + n * 0x1000] == mem[src..src + n * 0x1000];
  }

  /** What every state of every run keeps. */
  ghost predicate Safe(m: Machine, m0: Machine, src: nat, dst: nat, n: nat)
    requires InRange(m0.mem, src, dst, n)
  {
    && SameOutside(m.mem, m0.mem, FirstAtRisk(m0.mem, src, dst), dst + n * 0x1000)
    && (m.rtc == m0.rtc || (|m.rtc| == WORDS && !Accepts(m.rtc) && m.mem == CopySectors(m0.mem, src, dst, n)))
  }

  lemma NextKeepsSafe(m: Machine, m': Machine, m0: Machine, src: nat, dst: nat, n: nat)
    requires InRange(m0.mem, src, dst, n) && n > 0 && Disjoint(src, dst, n) && Pending(m0.rtc, src, dst, n)
    requires Safe(m, m0, src, dst, n) && Next(m, m', src, dst, n) && !IsGzip(m0.mem, src)
    ensures Safe(m', m0, src, dst, n)
  {
    hide CopySectors;
    hide CutShort;
    hide Accepts;
    if Pending(m.rtc, src, dst, n) {
      BootSectorStays(m.mem, m0.mem, src, dst, n);
      if m'.rtc == m.rtc && CutShort(m'.mem, m.mem, src, dst, n) {
        CutIsLocal(m'.mem, m.mem, src, dst, n);
      } else {
        SameSourceSameMove(m.mem, m0.mem, src, dst, n);
        CompleteIsLocal(m0.mem, src, dst, n);
        MagicGone(m.rtc);
      }
    }
  }

  lemma BootSectorStays(now: seq<byte>, mem: seq<byte>, src: nat, dst: nat, n: nat)
    requires InRange(mem, src, dst, n) && n > 0 && Disjoint(src, dst, n)
    requires SameOutside(now, mem, FirstAtRisk(mem, src, dst), dst + n * 0x1000)
    ensures BootSectorSame(mem, src, dst) ==> BootSectorSame(now, src, dst)
    ensures SameOutside(now, mem, dst, dst + n * 0x1000) && (IsGzip(now, src) <==> IsGzip(mem, src))
  {
    if BootSectorSame(mem, src, dst) {
      assert now[..0x1000] == mem[..0x1000] && now[src..src + 0x1000] == mem[src..src + 0x1000];
    }
  }

  lemma CompleteIsLocal(mem: seq<byte>, src: nat, dst: nat, n: nat)
    requires InRange(mem, src, dst, n) && n > 0 && Disjoint(src, dst, n)
    ensures SameOutside(CopySectors(mem, src, dst, n), mem, FirstAtRisk(mem, src, dst), dst + n * 0x1000)
  {
    hide CopySectors;
    CopyIsMove(mem, src, dst, n);
    MoveIsLocal(mem, src, dst, n * 0x1000);
  }

  lemma MagicGone(rtc: seq<word>)
    requires |rtc| == WORDS
    ensures !Accepts(rtc[0 := 0]) && !Accepts(rtc[0 := 0][WORDS - 1 := 0])
  {
  }

  /**
    A plain image and any number of resets, anywhere before the command is gone: nothing outside the destination
    changes, the bootloader's sector stays intact if it was already right, the command is either intact or gone for
    good, it is gone only with the image in place, and completing the copy from any state gives the same flash.
  */
  lemma {:induction false} EveryRunIsSafe(ms: seq<Machine>, src: nat, dst: nat, n: nat)
    requires Run(ms, src, dst, n) && n > 0
    requires InRange(ms[0].mem, src, dst, n) && Disjoint(src, dst, n) && !IsGzip(ms[0].mem, src)
    ensures Safe(ms[|ms| - 1], ms[0], src, dst, n)
    ensures InRange(ms[|ms| - 1].mem, src, dst, n)
    ensures CopySectors(ms[|ms| - 1].mem, src, dst, n) == CopySectors(ms[0].mem, src, dst, n)
    decreases |ms|
  {
    hide CopySectors;
    hide Pending;
    if |ms| > 1 {
      var front := ms[..|ms| - 1];
      EveryRunIsSafe(front, src, dst, n);
      assert Next(ms[|ms| - 2], ms[|ms| - 1], src, dst, n);
      NextKeepsSafe(ms[|ms| - 2], ms[|ms| - 1], ms[0], src, dst, n);
    }
    BootSectorStays(ms[|ms| - 1].mem, ms[0].mem, src, dst, n);
    SameSourceSameMove(ms[|ms| - 1].mem, ms[0].mem, src, dst, n);
  }

  /** The bootloader survives every reset exactly when its sector already holds what is to be written there. */
  lemma BootloaderSurvivesExactly(mem: seq<byte>, src: nat, n: nat)
    requires InRange(mem, src, 0, n) && n > 0
    ensures (forall now :: CutShort(now, mem, src, 0, n) ==> now[..0x1000] == mem[..0x1000]) <==>
              BootSectorSame(mem, src, 0)
  {
    hide CopySectors;
    if BootSectorSame(mem, src, 0) {
      forall now | CutShort(now, mem, src, 0, n)
        ensures now[..0x1000] == mem[..0x1000]
      {
        CutIsLocal(now, mem, src, 0, n);
      }
    } else {
      var now := mem[0 := if mem[0] == 0 then 1 else 0];
      NothingCut(mem, src, 0, n);
      assert CutAt(now, mem, src, 0, n, 0);
      assert now[..0x1000][0] != mem[..0x1000][0];
    }
  }

  // ----- which copies can be restarted

  /** Whatever the geometry, a copy changes its destination only. */
  lemma {:induction false} CopyIsLocal(mem: seq<byte>, src: nat, dst: nat, k: nat)
    requires InRange(mem, src, dst, k)
    ensures SameOutside(CopySectors(mem, src, dst, k), mem, dst, dst + k * 0x1000)
  {
    if k > 0 {
      CopyIsLocal(mem, src, dst, k - 1);
    }
  }

  lemma AnyCutIsLocal(now: seq<byte>, mem: seq<byte>, src: nat, dst: nat, n: nat)
    requires InRange(mem, src, dst, n) && n > 0 && CutShort(now, mem, src, dst, n)
    ensures SameOutside(now, mem, dst, dst + n * 0x1000)
  {
    hide CopySectors;
    var k :| 0 <= k <= n && CutAt(now, mem, src, dst, n, k);
    CopyIsLocal(mem, src, dst, k);
  }

  /** With the source `gap` bytes below the destination, a byte comes from as many gaps below as lead out of it. */
  ghost function Carried(mem: seq<byte>, dst: nat, end: nat, gap: nat, i: nat): byte
    requires i < |mem| && 0 < gap <= dst
    decreases i
  {
    if dst <= i < end then Carried(mem, dst, end, gap, i - gap) else mem[i]
  }

  lemma {:induction false} CarriedEarlier(mem: seq<byte>, dst: nat, end: nat, end': nat, gap: nat, i: nat)
    requires i < |mem| && 0 < gap <= dst && i < end <= end'
    ensures Carried(mem, dst, end, gap, i) == Carried(mem, dst, end', gap, i)
    decreases i
  {
    if dst <= i {
      CarriedEarlier(mem, dst, end, end', gap, i - gap);
    }
  }

  lemma {:induction false} SameCarried(now: seq<byte>, mem: seq<byte>, dst: nat, end: nat, gap: nat, i: nat)
    requires SameOutside(now, mem, dst, end) && i < |mem| && 0 < gap <= dst
    ensures Carried(now, dst, end, gap, i) == Carried(mem, dst, end, gap, i)
    decreases i
  {
    if dst <= i < end {
      SameCarried(now, mem, dst, end, gap, i - gap);
    }
  }

  lemma CopiedAt(mem: seq<byte>, src: nat, dst: nat, i: nat)
    requires src + 0x1000 <= |mem| && dst + 0x1000 <= |mem| && i < |mem|
    ensures CopySector(mem, src, dst)[i] == if dst <= i < dst + 0x1000 then mem[src + (i - dst)] else mem[i]
  {
  }

  lemma CopyStepAt(mem: seq<byte>, src: nat, dst: nat, k: nat, i: nat)
    requires InRange(mem, src, dst, k) && k > 0 && src <= dst && i < |mem|
    ensures var before, at := CopySectors(mem, src, dst, k - 1), dst + (k - 1) * 0x1000;
            CopySectors(mem, src, dst, k)[i] == if at <= i < at + 0x1000 then before[i - (dst - src)] else before[i]
  {
    hide CopySector;
    CopiedAt(CopySectors(mem, src, dst, k - 1), src + (k - 1) * 0x1000, dst + (k - 1) * 0x1000, i);
  }

  lemma CarriedAt(mem: seq<byte>, dst: nat, end: nat, gap: nat, i: nat)
    requires i < |mem| && 0 < gap <= dst
    ensures Carried(mem, dst, end, gap, i) == if dst <= i < end then Carried(mem, dst, end, gap, i - gap) else mem[i]
  {
  }

  lemma CopyNothing(mem: seq<byte>, src: nat, dst: nat)
    ensures CopySectors(mem, src, dst, 0) == mem
  {
  }

  lemma {:induction false} CopyCarries(mem: seq<byte>, src: nat, dst: nat, k: nat, i: nat)
    requires InRange(mem, src, dst, k) && src + 0x1000 <= dst && i < |mem|
    ensures CopySectors(mem, src, dst, k)[i] == Carried(mem, dst, dst + k * 0x1000, dst - src, i)
    decreases k
  {
    hide CopySectors;
    hide Carried;
    var end, gap := dst + k * 0x1000, dst - src;
    CarriedAt(mem, dst, end, gap, i);
    if k == 0 {
      CopyNothing(mem, src, dst);
    } else {
      var at := dst + (k - 1) * 0x1000;
      CopyStepAt(mem, src, dst, k, i);
      if at <= i < end {
        CopyCarries(mem, src, dst, k - 1, i - gap);
        CarriedEarlier(mem, dst, at, end, gap, i - gap);
      } else {
        CopyCarries(mem, src, dst, k - 1, i);
        if i < at {
          CarriedEarlier(mem, dst, at, end, gap, i);
        } else {
          CarriedAt(mem, dst, at, gap, i);
        }
      }
    }
  }

  /**
    From below, every sector is read where the copy has already been, so it ends the same from any flash that differs
    only there.
  */
  lemma FromBelowSameCopy(now: seq<byte>, mem: seq<byte>, src: nat, dst: nat, n: nat)
    requires InRange(mem, src, dst, n) && n > 0 && src + 0x1000 <= dst && SameOutside(now, mem, dst, dst + n * 0x1000)
    ensures CopySectors(now, src, dst, n) == CopySectors(mem, src, dst, n)
  {
    hide CopySectors;
    var a, b := CopySectors(now, src, dst, n), CopySectors(mem, src, dst, n);
    forall i | 0 <= i < |mem|
      ensures a[i] == b[i]
    {
      CopyCarries(now, src, dst, n, i);
      CopyCarries(mem, src, dst, n, i);
      SameCarried(now, mem, dst, dst + n * 0x1000, dst - src, i);
    }
  }

  ghost predicate Aligned(src: nat, dst: nat) {
    src % 0x1000 == 0 && dst % 0x1000 == 0
  }

  /** Disjoint, from below, or the bootloader's sector onto itself. */
  ghost predicate Restartable(src: nat, dst: nat, n: nat) {
    Disjoint(src, dst, n) || src < dst || (src == dst == 0 && n == 1)
  }

  lemma CutEndsTheSame(now: seq<byte>, mem: seq<byte>, src: nat, dst: nat, n: nat)
    requires Aligned(src, dst) && InRange(mem, src, dst, n) && n > 0 && Restartable(src, dst, n)
    requires CutShort(now, mem, src, dst, n)
    ensures SameOutside(now, mem, dst, dst + n * 0x1000)
    ensures CopySectors(now, src, dst, n) == CopySectors(mem, src, dst, n)
  {
    hide CopySectors;
    hide CutShort;
    AnyCutIsLocal(now, mem, src, dst, n);
    if src < dst {
      FromBelowSameCopy(now, mem, src, dst, n);
    } else if Disjoint(src, dst, n) {
      SameSourceSameMove(now, mem, src, dst, n);
    } else {
      BootSectorOntoItself(now, mem);
    }
  }

  /** Some contents of this size and some cut of the copy make the next boot end differently. */
  ghost predicate SomeCutDiffers(size: nat, src: nat, dst: nat, n: nat) {
    exists mem: seq<byte>, now: seq<byte> ::
      && |mem| == |now| == size && InRange(mem, src, dst, n) && CutShort(now, mem, src, dst, n)
      && CopySectors(now, src, dst, n) != CopySectors(mem, src, dst, n)
  }

  /**
    Every cut of the copy, for all contents, leads to the same final flash if and only if source and destination are
    disjoint, the source is below the destination, or the copy is that of the bootloader's sector onto itself.
  */
  lemma RestartableExactly(size: nat, src: nat, dst: nat, n: nat)
    requires Aligned(src, dst) && n > 0 && src + n * 0x1000 <= size && dst + n * 0x1000 <= size
    ensures SomeCutDiffers(size, src, dst, n) <==> !Restartable(src, dst, n)
  {
    hide CopySectors;
    hide CutShort;
    if Restartable(src, dst, n) {
      forall mem: seq<byte>, now: seq<byte> |
          |mem| == |now| == size && InRange(mem, src, dst, n) && CutShort(now, mem, src, dst, n)
        ensures CopySectors(now, src, dst, n) == CopySectors(mem, src, dst, n)
      {
        CutEndsTheSame(now, mem, src, dst, n);
      }
    } else {
      var d := (src - dst) / 0x1000;
      assert src == dst + d * 0x1000;
      var mem, now := OverlapIsNotRestartable(size, dst, d, n);
    }
  }

  /** What every state of every run of a restartable copy keeps. */
  ghost predicate OnTheWay(m: Machine, m0: Machine, src: nat, dst: nat, n: nat)
    requires InRange(m0.mem, src, dst, n)
  {
    && SameOutside(m.mem, m0.mem, dst, dst + n * 0x1000)
    && CopySectors(m.mem, src, dst, n) == CopySectors(m0.mem, src, dst, n)
    && (m.rtc == m0.rtc || (|m.rtc| == WORDS && !Accepts(m.rtc) && m.mem == CopySectors(m0.mem, src, dst, n)))
  }

  lemma SignatureStays(now: seq<byte>, mem: seq<byte>, src: nat, dst: nat, n: nat)
    requires Aligned(src, dst) && InRange(mem, src, dst, n) && n > 0 && (Disjoint(src, dst, n) || src < dst)
    requires SameOutside(now, mem, dst, dst + n * 0x1000)
    ensures IsGzip(now, src) <==> IsGzip(mem, src)
  {
  }

  lemma NextStaysOnTheWay(m: Machine, m': Machine, m0: Machine, src: nat, dst: nat, n: nat)
    requires Aligned(src, dst) && InRange(m0.mem, src, dst, n) && n > 0 && Restartable(src, dst, n)
    requires Pending(m0.rtc, src, dst, n) && !IsGzip(m.mem, src)
    requires OnTheWay(m, m0, src, dst, n) && Next(m, m', src, dst, n)
    ensures OnTheWay(m', m0, src, dst, n)
  {
    hide CopySectors;
    hide CutShort;
    hide Accepts;
    hide IsGzip;
    if Pending(m.rtc, src, dst, n) {
      if !CutShort(m'.mem, m.mem, src, dst, n) || m'.rtc != m.rtc {
        CompleteIsCut(m.mem, src, dst, n);
        MagicGone(m.rtc);
      }
      CutEndsTheSame(m'.mem, m.mem, src, dst, n);
    }
  }

  lemma CompleteIsCut(mem: seq<byte>, src: nat, dst: nat, n: nat)
    requires InRange(mem, src, dst, n)
    ensures CutShort(CopySectors(mem, src, dst, n), mem, src, dst, n)
  {
    hide CopySectors;
    assert CutAt(CopySectors(mem, src, dst, n), mem, src, dst, n, n);
  }

  /**
    A plain image and any number of resets, for every geometry that can be restarted: completing the copy gives the
    same flash.
  */
  lemma {:induction false} EveryRunEndsTheSame(ms: seq<Machine>, src: nat, dst: nat, n: nat)
    requires Run(ms, src, dst, n) && n > 0 && Aligned(src, dst)
    requires InRange(ms[0].mem, src, dst, n) && Restartable(src, dst, n) && !IsGzip(ms[0].mem, src)
    ensures OnTheWay(ms[|ms| - 1], ms[0], src, dst, n) && !IsGzip(ms[|ms| - 1].mem, src)
    decreases |ms|
  {
    hide CopySectors;
    hide Pending;
    if |ms| == 1 {
      assert OnTheWay(ms[0], ms[0], src, dst, n);
    } else {
      var front := ms[..|ms| - 1];
      EveryRunEndsTheSame(front, src, dst, n);
      assert Next(ms[|ms| - 2], ms[|ms| - 1], src, dst, n);
      NextStaysOnTheWay(ms[|ms| - 2], ms[|ms| - 1], ms[0], src, dst, n);
      if src == dst == 0 && n == 1 {
        BootSectorRun(ms[|ms| - 2], ms[|ms| - 1]);
      } else {
        SignatureStays(ms[|ms| - 1].mem, ms[0].mem, src, dst, n);
      }
    }
  }

  lemma BootSectorRun(m: Machine, m': Machine)
    requires Next(m, m', 0, 0, 1) && 0x1000 <= |m.mem| && !IsGzip(m.mem, 0)
    ensures m'.mem == m.mem
  {
    hide CopySectors;
    hide Pending;
    StaysOntoItself(m.mem, 0, 1);
    if CutShort(m'.mem, m.mem, 0, 0, 1) {
      BootSectorOntoItself(m'.mem, m.mem);
    }
  }

  /**
    The family that cannot be restarted: the source a number of sectors above the destination, or on it, and
    overlapping. There are flash contents for which one reset before the command is cleared makes the next boot produce
    something else.
  */
  lemma OverlapIsNotRestartable(size: nat, dst: nat, d: nat, n: nat) returns (mem: seq<byte>, now: seq<byte>)
    requires d < n && dst + d * 0x1000 + n * 0x1000 <= size && (d > 0 || dst > 0 || n > 1)
    ensures |mem| == |now| == size
    ensures CutShort(now, mem, dst + d * 0x1000, dst, n)
    ensures CopySectors(now, dst + d * 0x1000, dst, n) != CopySectors(mem, dst + d * 0x1000, dst, n)
  {
    hide CopySectors;
    hide Moved;
    var src := dst + d * 0x1000;
    if d == 0 {
      mem, now := OntoItself(size, dst, n);
      return;
    }
    mem := seq(size, i requires 0 <= i < size => if src + d * 0x1000 <= i then 1 as byte else 0);
    now := CopySectors(mem, src, dst, n);
    assert CutAt(now, mem, src, dst, n, n);
    CopyIsMove(mem, src, dst, n);
    CopyIsMove(now, src, dst, n);
    MovedAt(mem, src, dst, n * 0x1000, dst);
    MovedAt(mem, src, dst, n * 0x1000, src);
    MovedAt(now, src, dst, n * 0x1000, dst);
  }

  /**
    Sectors copied onto themselves are lost if the copy is cut between erasing and writing one that is not the
    bootloader's.
  */
  lemma OntoItself(size: nat, dst: nat, n: nat) returns (mem: seq<byte>, now: seq<byte>)
    requires 0 < n && dst + n * 0x1000 <= size && (dst > 0 || n > 1)
    ensures |mem| == |now| == size
    ensures CutShort(now, mem, dst, dst, n) && CopySectors(now, dst, dst, n) != CopySectors(mem, dst, dst, n)
  {
    hide CopySectors;
    hide Moved;
    mem := seq(size, _ => 0 as byte);
    var k := if dst > 0 then 0 else 1;
    var at := dst + k * 0x1000;
    now := mem[at := 1];
    assert now[at] != mem[at];
    StaysOntoItself(mem, dst, k);
    StaysOntoItself(mem, dst, n);
    StaysOntoItself(now, dst, n);
    assert CutAt(now, mem, dst, dst, n, k);
  }

  lemma StaysOntoItself(mem: seq<byte>, dst: nat, n: nat)
    requires dst + n * 0x1000 <= |mem|
    ensures CopySectors(mem, dst, dst, n) == mem
  {
    hide CopySectors;
    CopyIsMove(mem, dst, dst, n);
    forall i | 0 <= i < |mem|
      ensures Moved(mem, dst, dst, n * 0x1000)[i] == mem[i]
    {
      MovedAt(mem, dst, dst, n * 0x1000, i);
    }
  }

  /** The bootloader's own sector, copied onto itself, is the one exception. */
  lemma BootSectorOntoItself(now: seq<byte>, mem: seq<byte>)
    requires 0x1000 <= |mem| && CutShort(now, mem, 0, 0, 1)
    ensures now == mem
  {
    hide CopySectors;
    StaysOntoItself(mem, 0, 0);
    StaysOntoItself(mem, 0, 1);
    assert mem[..0x1000] == mem[0..0 + 0x1000];
  }
}
