/**
  `Stream::send*` of `StreamSend.cpp`: three ways to move bytes from a stream to an output. What the two ends announce,
  accept and deliver, and whether the timeout has passed, is given turn by turn.
*/
module StreamSend {
  import opened Bytes

  /**
    One turn: bytes announced for reading, room announced for writing, how many a write takes, how many a read gives.
    That a read gives none is -1 to the byte path; a negative number is an error to the block path.
  */
  datatype Turn = Turn(available: nat, room: nat, accepts: nat, delivers: int, timedOut: bool)

  /** `maxLen` 0 is no limit; `until` -1 is no delimiter; the ends can time out or not. */
  datatype Order = Order(maxLen: nat, until: int, inputCanTimeout: bool, outputCanTimeout: bool)

  datatype Stop = Going | Starved | Full | Hit | TimedOut | WriteError | ReadError

  /** The source's position, what the output got, the count, and why the loop stopped. */
  datatype Transfer = Transfer(pos: nat, got: seq<byte>, written: nat, stop: Stop)

  const STACK_BUFFER: nat := 64

  predicate Wants(o: Order, t: Transfer) {
    t.stop == Going && (o.maxLen == 0 || t.written < o.maxLen)
  }

  /** What the source shows at this turn of what is left of `data`. */
  function Shown(data: seq<byte>, pos: nat, turn: Turn): (n: nat)
    requires pos <= |data|
    ensures pos + n <= |data|
  {
    Min(turn.available, |data| - pos)
  }

  function Late(t: Transfer, turn: Turn): Transfer {
    if t.stop == Going && turn.timedOut then t.(stop := TimedOut) else t
  }

  /** `memchr`: the first index of `c`, or the length. */
  function Find(s: seq<byte>, c: int): (k: nat)
    ensures k <= |s| && (forall i :: 0 <= i < k ==> s[i] != c) && (k < |s| ==> s[k] == c)
  {
    if s == [] || s[0] == c then 0 else 1 + Find(s[1..], c)
  }

  /** The bytes to move at once, before a delimiter is looked for. */
  function Window(data: seq<byte>, o: Order, t: Transfer, turn: Turn): (w: nat)
    requires t.pos <= |data| && Wants(o, t)
    ensures w <= turn.room && t.pos + w <= |data| && (o.maxLen > 0 ==> t.written + w <= o.maxLen)
  {
    var w := Min(turn.room, Shown(data, t.pos, turn));
    if o.maxLen > 0 then Min(w, o.maxLen - t.written) else w
  }

  // ----- the three loops, a turn at a time

  function PeekTurn(data: seq<byte>, o: Order, t: Transfer, turn: Turn): (r: Transfer)
    requires t.pos <= |data|
    ensures r.pos <= |data|
  {
    if !Wants(o, t) then t else
    if Shown(data, t.pos, turn) == 0 && !o.inputCanTimeout then t.(stop := Starved) else
    if turn.room == 0 && !o.outputCanTimeout then t.(stop := Full) else
    var w := Window(data, o, t, turn);
    var k := if o.until >= 0 then Find(data[t.pos..t.pos + w], o.until) else w;
    var n := Min(turn.accepts, k);
    var moved := t.(pos := t.pos + n, got := t.got + data[t.pos..t.pos + n], written := t.written + n);
    if k < w then moved.(pos := moved.pos + 1, stop := Hit) else Late(moved, turn)
  }

  function ByteTurn(data: seq<byte>, o: Order, t: Transfer, turn: Turn): (r: Transfer)
    requires t.pos <= |data|
    ensures r.pos <= |data|
  {
    if !Wants(o, t) then t else
    if Shown(data, t.pos, turn) == 0 && !o.inputCanTimeout then t.(stop := Starved) else
    if turn.room == 0 && !o.outputCanTimeout then t.(stop := Full) else
    if t.pos == |data| || turn.delivers <= 0 then Late(t, turn) else
    var c, read := data[t.pos], t.(pos := t.pos + 1);
    if c == o.until then read.(stop := Hit) else
    if turn.accepts == 0 then read.(stop := WriteError) else
    Late(read.(got := t.got + [c], written := t.written + 1), turn)
  }

  function BlockTurn(data: seq<byte>, o: Order, t: Transfer, turn: Turn): (r: Transfer)
    requires t.pos <= |data|
    ensures r.pos <= |data|
  {
    if !Wants(o, t) then t else
    if Shown(data, t.pos, turn) == 0 && !o.inputCanTimeout then t.(stop := Starved) else
    if turn.room == 0 && !o.outputCanTimeout then t.(stop := Full) else
    var w := Min(Window(data, o, t, turn), STACK_BUFFER);
    if w == 0 then Late(t, turn) else
    if turn.delivers < 0 then t.(stop := ReadError) else
    var r := Min(turn.delivers, w);
    var n := Min(turn.accepts, r);
    var moved := t.(pos := t.pos + r, got := t.got + data[t.pos..t.pos + n], written := t.written + n);
    if n != r then moved.(stop := WriteError) else Late(moved, turn)
  }

  datatype Path = Peek | ByByte | ByBlock

  /** The order as a path takes it: `memchr` looks for the low byte of the delimiter. */
  function For(path: Path, o: Order): (o': Order)
    ensures o'.maxLen == o.maxLen && (o'.until >= 0 <==> o.until >= 0)
  {
    if path == Peek && o.until >= 0 then o.(until := o.until % 256) else o
  }

  function OneTurn(path: Path, data: seq<byte>, o: Order, t: Transfer, turn: Turn): (r: Transfer)
    requires t.pos <= |data|
    ensures r.pos <= |data|
  {
    match path
    case Peek => PeekTurn(data, For(Peek, o), t, turn)
    case ByByte => ByteTurn(data, o, t, turn)
    case ByBlock => BlockTurn(data, o, t, turn)
  }

  function Run(path: Path, data: seq<byte>, o: Order, t: Transfer, env: seq<Turn>): (r: Transfer)
    requires t.pos <= |data|
    ensures r.pos <= |data|
  {
    if env == [] then t else OneTurn(path, data, o, Run(path, data, o, t, env[..|env| - 1]), env[|env| - 1])
  }

  lemma RunLast(path: Path, data: seq<byte>, o: Order, t: Transfer, env: seq<Turn>)
    requires t.pos <= |data| && env != []
    ensures Run(path, data, o, t, env) ==
            OneTurn(path, data, o, Run(path, data, o, t, env[..|env| - 1]), env[|env| - 1])
  {
  }

  // ----- bytes are conserved

  /** The output got exactly the next bytes of the source, as many as were counted and no more than asked for. */
  ghost predicate Conserved(data: seq<byte>, o: Order, t0: Transfer, t: Transfer) {
    && t0.pos + (t.written - t0.written) <= t.pos <= |data| && t0.written <= t.written
    && t.got == t0.got + data[t0.pos..t0.pos + (t.written - t0.written)]
    && (o.maxLen > 0 && t0.written <= o.maxLen ==> t.written <= o.maxLen)
  }

  /** How many bytes the source lost that the output did not get. */
  ghost function Dropped(t0: Transfer, t: Transfer): int {
    t.pos - t0.pos - (t.written - t0.written)
  }

  /** A turn moves the next `n` bytes and may drop some behind them. */
  ghost predicate Moves(data: seq<byte>, o: Order, t: Transfer, r: Transfer) {
    && t.pos + (r.written - t.written) <= r.pos <= |data| && t.written <= r.written
    && r.got == t.got + data[t.pos..t.pos + (r.written - t.written)]
    && (o.maxLen > 0 ==> r.written <= o.maxLen)
  }

  ghost predicate Drops(path: Path, t: Transfer, r: Transfer) {
    && (r.stop !in {Hit, WriteError} ==> r.pos == t.pos + (r.written - t.written))
    && (r.stop == Hit ==> r.pos == t.pos + (r.written - t.written) + 1)
    && (r.stop == WriteError ==> 0 < r.pos - t.pos - (r.written - t.written) <= MostDropped(path))
  }

  /**
    What a write error can cost: the byte read, or the block read; the peek buffer takes nothing that was not written.
  */
  function MostDropped(path: Path): nat {
    match path
    case Peek => 0
    case ByByte => 1
    case ByBlock => STACK_BUFFER
  }

  lemma PeekMoves(data: seq<byte>, o: Order, t: Transfer, turn: Turn)
    requires t.pos <= |data| && Wants(o, t)
    ensures Moves(data, o, t, PeekTurn(data, o, t, turn)) && Drops(Peek, t, PeekTurn(data, o, t, turn))
  {
    hide Find;
  }

  lemma ByteMoves(data: seq<byte>, o: Order, t: Transfer, turn: Turn)
    requires t.pos <= |data| && Wants(o, t)
    ensures Moves(data, o, t, ByteTurn(data, o, t, turn)) && Drops(ByByte, t, ByteTurn(data, o, t, turn))
  {
    assert t.pos < |data| ==> data[t.pos..t.pos + 1] == [data[t.pos]];
  }

  lemma BlockMoves(data: seq<byte>, o: Order, t: Transfer, turn: Turn)
    requires t.pos <= |data| && Wants(o, t)
    ensures Moves(data, o, t, BlockTurn(data, o, t, turn)) && Drops(ByBlock, t, BlockTurn(data, o, t, turn))
  {
  }

  lemma SameLimit(data: seq<byte>, o: Order, o': Order, t: Transfer, r: Transfer)
    requires o.maxLen == o'.maxLen
    ensures Moves(data, o, t, r) == Moves(data, o', t, r)
  {
  }

  lemma TurnMoves(path: Path, data: seq<byte>, o: Order, t: Transfer, turn: Turn)
    requires t.pos <= |data|
    ensures var r := OneTurn(path, data, o, t, turn);
            if Wants(o, t) then Moves(data, o, t, r) && Drops(path, t, r) else r == t
  {
    hide Moves;
    hide Drops;
    if Wants(o, t) {
      match path
      case Peek =>
        PeekMoves(data, For(Peek, o), t, turn);
        SameLimit(data, o, For(Peek, o), t, PeekTurn(data, For(Peek, o), t, turn));
      case ByByte => ByteMoves(data, o, t, turn);
      case ByBlock => BlockMoves(data, o, t, turn);
    }
  }

  lemma Joined(data: seq<byte>, o: Order, t0: Transfer, t: Transfer, r: Transfer)
    requires Conserved(data, o, t0, t) && Dropped(t0, t) == 0 && Moves(data, o, t, r)
    ensures Conserved(data, o, t0, r)
  {
    var m, n := t.written - t0.written, r.written - t.written;
    SlicesJoined(data, t0.pos, t.pos, t.pos + n);
    Associates(t0.got, data[t0.pos..t.pos], data[t.pos..t.pos + n]);
  }

  lemma SlicesJoined(data: seq<byte>, from: nat, mid: nat, to: nat)
    requires from <= mid <= to <= |data|
    ensures data[from..mid] + data[mid..to] == data[from..to]
  {
  }

  lemma Associates(a: seq<byte>, b: seq<byte>, c: seq<byte>)
    ensures a + b + c == a + (b + c)
  {
  }

  /**
    What a stopped loop has dropped: one byte if it met the delimiter, the byte or part of the block of a write error,
    else none.
  */
  ghost predicate DropsOnly(path: Path, t0: Transfer, t: Transfer) {
    && (t.stop !in {Hit, WriteError} ==> Dropped(t0, t) == 0)
    && (t.stop == Hit ==> Dropped(t0, t) == 1)
    && (t.stop == WriteError ==> 0 < Dropped(t0, t) <= MostDropped(path))
  }

  /** Whatever the ends and the clock do, the output gets exactly the first `written` bytes of the source, in order. */
  lemma {:induction false} BytesConserved(path: Path, data: seq<byte>, o: Order, t: Transfer, env: seq<Turn>)
    requires t.pos <= |data| && t.stop == Going
    ensures var r := Run(path, data, o, t, env); Conserved(data, o, t, r) && DropsOnly(path, t, r)
  {
    hide OneTurn;
    if env != [] {
      var before := env[..|env| - 1];
      BytesConserved(path, data, o, t, before);
      var s := Run(path, data, o, t, before);
      TurnMoves(path, data, o, s, env[|env| - 1]);
      hide Conserved;
      if Wants(o, s) {
        Joined(data, o, t, s, OneTurn(path, data, o, s, env[|env| - 1]));
      }
    }
  }

  // ----- the delimiter

  /** A write takes all that fits the room announced before. */
  ghost predicate Honest(env: seq<Turn>) {
    forall i :: 0 <= i < |env| ==> env[i].accepts >= env[i].room
  }

  ghost predicate NoDelimiter(data: seq<byte>, until: int, from: int, to: int) {
    forall i :: from <= i < to && 0 <= i < |data| ==> data[i] != until
  }

  lemma PeekDelimiter(data: seq<byte>, o: Order, t: Transfer, turn: Turn)
    requires t.pos <= |data| && Wants(o, t) && o.until >= 0
    ensures var r := PeekTurn(data, o, t, turn); NoDelimiter(data, o.until, t.pos, t.pos + (r.written - t.written))
  {
    var w := Window(data, o, t, turn);
    var window := data[t.pos..t.pos + w];
    assert forall i :: t.pos <= i < t.pos + w ==> data[i] == window[i - t.pos];
    hide Window;
  }

  /**
    The peek-buffer path takes one byte more when it has seen the delimiter, even if the output did not take all
    bytes before it: that byte is the delimiter exactly when it did.
  */
  lemma PeekHitExactly(data: seq<byte>, o: Order, t: Transfer, turn: Turn)
    requires t.pos <= |data| && Wants(o, t) && o.until >= 0
    ensures var r := PeekTurn(data, o, t, turn);
            r.stop == Hit ==>
              (data[r.pos - 1] == o.until <==>
               turn.accepts >= Find(data[t.pos..t.pos + Window(data, o, t, turn)], o.until))
  {
    hide Find;
    hide Window;
    var w := Window(data, o, t, turn);
    var window := data[t.pos..t.pos + w];
    if Find(window, o.until) < w {
      FirstIsAt(window, o.until, Min(turn.accepts, Find(window, o.until)));
    }
  }

  lemma FirstIsAt(s: seq<byte>, c: int, n: nat)
    requires n <= Find(s, c) < |s|
    ensures s[n] == c <==> n == Find(s, c)
  {
    hide Find;
  }

  /** No delimiter is moved, and the byte dropped on meeting it is the delimiter. */
  ghost predicate Delimited(data: seq<byte>, o: Order, t: Transfer, r: Transfer) {
    && NoDelimiter(data, o.until, t.pos, t.pos + (r.written - t.written))
    && (r.stop == Hit ==> 0 < r.pos <= |data| && data[r.pos - 1] == o.until)
  }

  lemma DelimitedJoined(data: seq<byte>, o: Order, t: Transfer, s: Transfer, r: Transfer)
    requires Delimited(data, o, t, s) && Delimited(data, o, s, r) && Dropped(t, s) == 0
    ensures Delimited(data, o, t, r)
  {
  }

  lemma GoingDropsNone(path: Path, o: Order, t: Transfer, s: Transfer)
    requires DropsOnly(path, t, s) && Wants(o, s)
    ensures Dropped(t, s) == 0
  {
  }

  lemma HonestBefore(env: seq<Turn>)
    requires Honest(env) && env != []
    ensures Honest(env[..|env| - 1]) && env[|env| - 1].accepts >= env[|env| - 1].room
  {
  }

  /**
    Reading byte by byte or from the peek buffer, everything before the delimiter is moved, and the delimiter is
    dropped.
  */
  lemma {:induction false} DelimiterDropped(path: Path, data: seq<byte>, o: Order, t: Transfer, env: seq<Turn>)
    requires t.pos <= |data| && t.stop == Going && o.until >= 0 && path != ByBlock && Honest(env)
    ensures Delimited(data, For(path, o), t, Run(path, data, o, t, env))
  {
    if env != [] {
      hide *;
      var before, turn := env[..|env| - 1], env[|env| - 1];
      HonestBefore(env);
      DelimiterDropped(path, data, o, t, before);
      BytesConserved(path, data, o, t, before);
      RunLast(path, data, o, t, env);
      var s := Run(path, data, o, t, before);
      TurnMoves(path, data, o, s, turn);
      if Wants(o, s) {
        GoingDropsNone(path, o, t, s);
        TurnDelimiter(path, data, o, s, turn);
        DelimitedJoined(data, For(path, o), t, s, OneTurn(path, data, o, s, turn));
      }
    }
  }

  lemma TurnDelimiter(path: Path, data: seq<byte>, o: Order, t: Transfer, turn: Turn)
    requires t.pos <= |data| && Wants(o, t) && o.until >= 0 && path != ByBlock && turn.accepts >= turn.room
    ensures Delimited(data, For(path, o), t, OneTurn(path, data, o, t, turn))
  {
    if path == Peek {
      var o' := For(Peek, o);
      PeekDelimiter(data, o', t, turn);
      PeekHitExactly(data, o', t, turn);
      PeekMoves(data, o', t, turn);
      hide PeekTurn;
    }
  }

  // ----- the three paths agree

  /** The plain meaning: byte after byte, up to the limit, the delimiter or the end. */
  function Reference(data: seq<byte>, o: Order, t: Transfer): Transfer
    requires t.pos <= |data|
    decreases |data| - t.pos
  {
    if !Wants(o, t) || t.pos == |data| then t else
    if data[t.pos] == o.until then t.(pos := t.pos + 1, stop := Hit) else
    Reference(data, o, t.(pos := t.pos + 1, got := t.got + [data[t.pos]], written := t.written + 1))
  }

  /**
    From `t` to `r`, the bytes up to the first of the limit, the end and the delimiter are moved, and the delimiter
    dropped.
  */
  ghost predicate PlainlySent(data: seq<byte>, o: Order, t: Transfer, r: Transfer) {
    var n := r.written - t.written;
    && 0 <= n && t.pos + n <= |data| && r.got == t.got + data[t.pos..t.pos + n]
    && NoDelimiter(data, o.until, t.pos, t.pos + n)
    && r.pos == t.pos + n + (if r.stop == Hit then 1 else 0)
    && (o.maxLen > 0 ==> r.written <= o.maxLen)
    && (r.stop == Hit <==> (o.maxLen == 0 || r.written < o.maxLen) && t.pos + n < |data| && data[t.pos + n] == o.until)
    && (r.stop != Hit ==> r.stop == Going && (t.pos + n == |data| || (o.maxLen > 0 && r.written == o.maxLen)))
  }

  lemma {:induction false} ReferenceMeans(data: seq<byte>, o: Order, t: Transfer)
    requires t.pos <= |data| && t.stop == Going && (o.maxLen > 0 ==> t.written <= o.maxLen)
    ensures PlainlySent(data, o, t, Reference(data, o, t))
    decreases |data| - t.pos
  {
    hide PlainlySent;
    if Wants(o, t) && t.pos < |data| && data[t.pos] != o.until {
      var s := t.(pos := t.pos + 1, got := t.got + [data[t.pos]], written := t.written + 1);
      ReferenceMeans(data, o, s);
      OneMoreSent(data, o, t, s, Reference(data, o, s));
    } else {
      NoneSent(data, o, t);
    }
  }

  lemma NoneSent(data: seq<byte>, o: Order, t: Transfer)
    requires t.pos <= |data| && t.stop == Going && (o.maxLen > 0 ==> t.written <= o.maxLen)
    requires !Wants(o, t) || t.pos == |data| || data[t.pos] == o.until
    ensures PlainlySent(data, o, t, if Wants(o, t) && t.pos < |data| then t.(pos := t.pos + 1, stop := Hit) else t)
  {
  }

  lemma OneMoreSent(data: seq<byte>, o: Order, t: Transfer, s: Transfer, r: Transfer)
    requires t.pos < |data| && data[t.pos] != o.until && PlainlySent(data, o, s, r)
    requires s == t.(pos := t.pos + 1, got := t.got + [data[t.pos]], written := t.written + 1)
    ensures PlainlySent(data, o, t, r)
  {
    var n := r.written - s.written;
    assert [data[t.pos]] + data[s.pos..s.pos + n] == data[t.pos..t.pos + 1 + n];
  }

  function Ahead(data: seq<byte>, t: Transfer, n: nat): Transfer
    requires t.pos + n <= |data|
  {
    t.(pos := t.pos + n, got := t.got + data[t.pos..t.pos + n], written := t.written + n)
  }

  lemma AheadIs(data: seq<byte>, t: Transfer, n: nat)
    requires t.pos + n <= |data|
    ensures var s := Ahead(data, t, n); s.pos == t.pos + n && s.written == t.written + n && s.stop == t.stop
  {
  }

  lemma {:induction false} ReferenceAhead(data: seq<byte>, o: Order, t: Transfer, n: nat)
    requires t.pos + n <= |data| && t.stop == Going && (o.maxLen > 0 ==> t.written + n <= o.maxLen)
    requires NoDelimiter(data, o.until, t.pos, t.pos + n)
    ensures Reference(data, o, t) == Reference(data, o, Ahead(data, t, n))
    decreases n
  {
    if n > 0 {
      ReferenceOne(data, o, t);
      AheadTwice(data, t, n);
      hide Reference;
      ReferenceAhead(data, o, Ahead(data, t, 1), n - 1);
    } else {
      assert Ahead(data, t, 0) == t;
    }
  }

  lemma ReferenceOne(data: seq<byte>, o: Order, t: Transfer)
    requires t.pos < |data| && Wants(o, t) && data[t.pos] != o.until
    ensures Reference(data, o, t) == Reference(data, o, Ahead(data, t, 1))
  {
    assert data[t.pos..t.pos + 1] == [data[t.pos]];
  }

  lemma AheadTwice(data: seq<byte>, t: Transfer, n: nat)
    requires 0 < n && t.pos + n <= |data|
    ensures Ahead(data, Ahead(data, t, 1), n - 1) == Ahead(data, t, n)
  {
    assert data[t.pos..t.pos + 1] + data[t.pos + 1..t.pos + n] == data[t.pos..t.pos + n];
  }

  lemma {:induction false} ReferenceGrows(data: seq<byte>, o: Order, t: Transfer)
    requires t.pos <= |data|
    ensures Reference(data, o, t).written >= t.written && t.pos <= Reference(data, o, t).pos <= |data|
    ensures Wants(o, t) && t.pos < |data| ==> Reference(data, o, t).pos > t.pos
    decreases |data| - t.pos
  {
    if Wants(o, t) && t.pos < |data| && data[t.pos] != o.until {
      ReferenceGrows(data, o, t.(pos := t.pos + 1, got := t.got + [data[t.pos]], written := t.written + 1));
    }
  }

  lemma ReferenceMovesAtLeast(data: seq<byte>, o: Order, t: Transfer, n: nat)
    requires t.pos + n <= |data| && t.stop == Going && (o.maxLen > 0 ==> t.written + n <= o.maxLen)
    requires NoDelimiter(data, o.until, t.pos, t.pos + n)
    ensures Reference(data, o, t).written >= t.written + n
  {
    hide Reference;
    ReferenceAhead(data, o, t, n);
    ReferenceGrows(data, o, Ahead(data, t, n));
  }

  /** Both stop at the same place with the same bytes moved. */
  ghost predicate Same(t: Transfer, r: Transfer) {
    t.pos == r.pos && t.got == r.got && t.written == r.written && (t.stop == Hit <==> r.stop == Hit)
  }

  /**
    What a turn must offer for the plain transfer to go on: an end with nothing to offer can still wait, and a write
    takes what is needed. On the peek path these are all bytes before a delimiter in sight, on the byte path the byte
    that is read, room or not, and on the block path the block that is read.
  */
  ghost predicate Fits(path: Path, data: seq<byte>, o: Order, t: Transfer, turn: Turn)
    requires t.pos < |data| && Wants(o, t)
  {
    && (turn.available > 0 || o.inputCanTimeout) && (turn.room > 0 || o.outputCanTimeout)
    && var w := Window(data, o, t, turn);
       match path
       case Peek => o.until >= 0 ==> var k := Find(data[t.pos..t.pos + w], o.until); k == w || turn.accepts >= k
       case ByByte => turn.delivers <= 0 || turn.accepts > 0 || data[t.pos] == o.until
       case ByBlock => var b := Min(w, STACK_BUFFER);
         b == 0 || (turn.delivers >= 0 && turn.accepts >= Min(turn.delivers, b))
  }

  /** The turn moves at least one byte, if it fits. */
  ghost predicate Productive(path: Path, o: Order, turn: Turn) {
    && turn.available > 0 && turn.accepts > 0 && (turn.room > 0 || (path == ByByte && o.outputCanTimeout))
    && (path != Peek ==> turn.delivers > 0)
  }

  /** A turn that fits does what `Reference` would; one that does not ends the loop with something else. */
  ghost predicate FollowsIf(fits: bool, data: seq<byte>, o: Order, t: Transfer, r: Transfer, productive: bool)
    requires t.pos <= |data| && r.pos <= |data|
  {
    if fits then
      && Same(Reference(data, o, r), Reference(data, o, t))
      && (productive && Wants(o, r) && r.pos < |data| ==> r.pos > t.pos)
    else r.stop != Going && !Same(r, Reference(data, o, t))
  }

  /** The window holds no delimiter up to where it was found. */
  lemma WindowIsClear(data: seq<byte>, o: Order, t: Transfer, turn: Turn) returns (w: nat, k: nat)
    requires t.pos < |data| && Wants(o, t)
    ensures w == Window(data, o, t, turn) &&
            k == (if o.until >= 0 then Find(data[t.pos..t.pos + w], o.until) else w) <= w
    ensures NoDelimiter(data, o.until, t.pos, t.pos + k) && (k < w ==> data[t.pos + k] == o.until)
    ensures turn.available > 0 && turn.room > 0 ==> w > 0
  {
    w := Window(data, o, t, turn);
    assert turn.available > 0 && turn.room > 0 ==> w > 0;
    var window := data[t.pos..t.pos + w];
    assert forall i :: t.pos <= i < t.pos + w ==> data[i] == window[i - t.pos];
    hide Window;
    k := if o.until >= 0 then Find(window, o.until) else w;
  }

  lemma ReferenceHits(data: seq<byte>, o: Order, t: Transfer)
    requires t.pos < |data| && Wants(o, t) && data[t.pos] == o.until
    ensures Reference(data, o, t) == t.(pos := t.pos + 1, stop := Hit)
  {
  }

  lemma ReferenceRests(data: seq<byte>, o: Order, t: Transfer)
    requires t.pos <= |data| && (!Wants(o, t) || t.pos == |data|)
    ensures Reference(data, o, t) == t
  {
  }

  lemma PeekFollows(data: seq<byte>, o: Order, t: Transfer, turn: Turn)
    requires t.pos < |data| && Wants(o, t) && !turn.timedOut
    ensures FollowsIf(Fits(Peek, data, o, t, turn), data, o, t, PeekTurn(data, o, t, turn), Productive(Peek, o, turn))
  {
    hide Reference;
    hide PeekTurn;
    ReferenceGrows(data, o, t);
    var w, k := WindowIsClear(data, o, t, turn);
    var n, r := Min(turn.accepts, k), PeekTurn(data, o, t, turn);
    PeekCases(data, o, t, turn, w, k, n);
    ReferenceAhead(data, o, t, n);
    ReferenceAhead(data, o, t, k);
    ReferenceMovesAtLeast(data, o, t, k);
    if k < w {
      ReferenceHits(data, o, Ahead(data, t, k));
    }
    PeekFollowsBy(data, o, t, turn, w, k, n, r);
  }

  lemma PeekFits(data: seq<byte>, o: Order, t: Transfer, turn: Turn, w: nat, k: nat)
    requires t.pos < |data| && Wants(o, t) && w == Window(data, o, t, turn)
    requires k == if o.until >= 0 then Find(data[t.pos..t.pos + w], o.until) else w
    ensures Fits(Peek, data, o, t, turn) <==>
              (turn.available > 0 || o.inputCanTimeout) && (turn.room > 0 || o.outputCanTimeout) &&
              (k == w || turn.accepts >= k)
  {
    hide Window;
    hide Find;
  }

  lemma PeekFollowsBy(data: seq<byte>, o: Order, t: Transfer, turn: Turn, w: nat, k: nat, n: nat, r: Transfer)
    requires t.pos < |data| && Wants(o, t) && w == Window(data, o, t, turn)
    requires k == (if o.until >= 0 then Find(data[t.pos..t.pos + w], o.until) else w) <= w && n == Min(turn.accepts, k)
    requires turn.available > 0 && turn.room > 0 ==> w > 0
    requires r == if turn.available == 0 && !o.inputCanTimeout then t.(stop := Starved) else
                  if turn.room == 0 && !o.outputCanTimeout then t.(stop := Full) else
                  if k < w then Ahead(data, t, n).(pos := t.pos + n + 1, stop := Hit) else Ahead(data, t, n)
    requires Reference(data, o, t).pos > t.pos && Reference(data, o, t).written >= t.written + k
    requires Reference(data, o, t) == Reference(data, o, Ahead(data, t, n)) == Reference(data, o, Ahead(data, t, k))
    requires k < w ==> Reference(data, o, Ahead(data, t, k)) == Ahead(data, t, k).(pos := t.pos + k + 1, stop := Hit)
    ensures r.pos <= |data| && FollowsIf(Fits(Peek, data, o, t, turn), data, o, t, r, Productive(Peek, o, turn))
  {
    hide Reference;
    hide Window;
    hide Find;
    hide Ahead;
    hide Fits;
    PeekFits(data, o, t, turn, w, k);
    AheadIs(data, t, n);
    AheadIs(data, t, k);
    var fits := Fits(Peek, data, o, t, turn);
    if (turn.available == 0 && !o.inputCanTimeout) || (turn.room == 0 && !o.outputCanTimeout) {
      assert !fits && !Same(r, Reference(data, o, t));
    } else if k < w && turn.accepts < k {
      assert !fits && !Same(r, Reference(data, o, t));
    } else if k < w {
      ReferenceRests(data, o, r);
      assert fits && r == Reference(data, o, t);
    } else {
      assert fits && Reference(data, o, r) == Reference(data, o, t);
    }
  }

  /** The outcomes of a peek turn. */
  lemma PeekCases(data: seq<byte>, o: Order, t: Transfer, turn: Turn, w: nat, k: nat, n: nat)
    requires t.pos < |data| && Wants(o, t) && !turn.timedOut && w == Window(data, o, t, turn)
    requires k == (if o.until >= 0 then Find(data[t.pos..t.pos + w], o.until) else w) && n == Min(turn.accepts, k)
    ensures PeekTurn(data, o, t, turn) ==
            if turn.available == 0 && !o.inputCanTimeout then t.(stop := Starved) else
            if turn.room == 0 && !o.outputCanTimeout then t.(stop := Full) else
            if k < w then Ahead(data, t, n).(pos := t.pos + n + 1, stop := Hit) else Ahead(data, t, n)
  {
    hide Window;
    hide Find;
  }

  lemma ByteFollows(data: seq<byte>, o: Order, t: Transfer, turn: Turn)
    requires t.pos < |data| && Wants(o, t) && !turn.timedOut
    ensures FollowsIf(Fits(ByByte, data, o, t, turn), data, o, t, ByteTurn(data, o, t, turn),
                      Productive(ByByte, o, turn))
  {
    ReferenceGrows(data, o, t);
    hide Window;
    if data[t.pos] != o.until {
      ReferenceMovesAtLeast(data, o, t, 1);
    }
  }

  /** The outcomes of a block turn. */
  lemma BlockCases(data: seq<byte>, o: Order, t: Transfer, turn: Turn, b: nat, m: nat, n: nat)
    requires t.pos < |data| && Wants(o, t) && !turn.timedOut && b == Min(Window(data, o, t, turn), STACK_BUFFER)
    requires m == (if turn.delivers < 0 then 0 else Min(turn.delivers, b)) && n == Min(turn.accepts, m)
    ensures BlockTurn(data, o, t, turn) ==
            if turn.available == 0 && !o.inputCanTimeout then t.(stop := Starved) else
            if turn.room == 0 && !o.outputCanTimeout then t.(stop := Full) else
            if b == 0 then t else
            if turn.delivers < 0 then t.(stop := ReadError) else
            if n != m then Ahead(data, t, n).(pos := t.pos + m, stop := WriteError) else Ahead(data, t, n)
  {
    hide Window;
  }

  lemma BlockFollows(data: seq<byte>, o: Order, t: Transfer, turn: Turn)
    requires t.pos < |data| && Wants(o, t) && !turn.timedOut && o.until < 0
    ensures FollowsIf(Fits(ByBlock, data, o, t, turn), data, o, t, BlockTurn(data, o, t, turn),
                      Productive(ByBlock, o, turn))
  {
    hide Reference;
    hide BlockTurn;
    ReferenceGrows(data, o, t);
    var w, k := WindowIsClear(data, o, t, turn);
    var b := Min(w, STACK_BUFFER);
    var m := if turn.delivers < 0 then 0 else Min(turn.delivers, b);
    var n, r := Min(turn.accepts, m), BlockTurn(data, o, t, turn);
    BlockCases(data, o, t, turn, b, m, n);
    ReferenceAhead(data, o, t, n);
    ReferenceMovesAtLeast(data, o, t, m);
    hide Window;
    hide NoDelimiter;
    if !Wants(o, r) {
      ReferenceRests(data, o, r);
    }
  }

  /** A turn keeps to the plain transfer exactly if it fits. */
  lemma TurnFollowsExactly(path: Path, data: seq<byte>, o: Order, t: Transfer, turn: Turn)
    requires t.pos < |data| && Wants(o, t) && !turn.timedOut && (path == ByBlock ==> o.until < 0)
    ensures var o', r := For(path, o), OneTurn(path, data, o, t, turn);
            && FollowsIf(Fits(path, data, o', t, turn), data, o', t, r, Productive(path, o, turn))
            && (Same(Reference(data, o', r), Reference(data, o', t)) <==> Fits(path, data, o', t, turn))
  {
    var o' := For(path, o);
    SameProductive(path, o, turn);
    hide Fits;
    hide Productive;
    hide Reference;
    hide Same;
    match path {
      case Peek => PeekFollows(data, o', t, turn);
      case ByByte => ByteFollows(data, o, t, turn);
      case ByBlock => BlockFollows(data, o, t, turn);
    }
    var r := OneTurn(path, data, o, t, turn);
    if !Fits(path, data, o', t, turn) {
      ReferenceRests(data, o', r);
    }
  }

  lemma SameProductive(path: Path, o: Order, turn: Turn)
    ensures Productive(path, For(path, o), turn) == Productive(path, o, turn)
  {
  }

  /**
    With an output that takes what it announces, the peek path keeps to the plain transfer whenever both ends can wait
    or offer something.
  */
  lemma HonestPeekFits(data: seq<byte>, o: Order, t: Transfer, turn: Turn)
    requires t.pos < |data| && Wants(o, t) && turn.accepts >= turn.room
    ensures Fits(Peek, data, o, t, turn) <==>
              (turn.available > 0 || o.inputCanTimeout) && (turn.room > 0 || o.outputCanTimeout)
  {
    hide Find;
  }

  /**
    The byte path needs more: at a turn without room it reads and writes all the same, and what the write does not take
    is lost.
  */
  lemma HonestByteFitsExactly(data: seq<byte>, o: Order, t: Transfer, turn: Turn)
    requires t.pos < |data| && Wants(o, t) && turn.accepts >= turn.room
    ensures Fits(ByByte, data, o, t, turn) <==>
            && Fits(Peek, data, o, t, turn)
            && (turn.room > 0 || turn.delivers <= 0 || turn.accepts > 0 || data[t.pos] == o.until)
  {
    hide Find;
  }

  /** So an output that is full for the moment makes the two paths differ: one waits, the other loses a byte. */
  lemma NoRoomLosesAByte(data: seq<byte>, o: Order, t: Transfer, turn: Turn)
    requires t.pos < |data| && Wants(o, t) && o.outputCanTimeout && data[t.pos] != o.until
    requires (turn.available > 0 || o.inputCanTimeout) && turn.delivers > 0 && turn.room == turn.accepts == 0 &&
             !turn.timedOut
    ensures PeekTurn(data, o, t, turn) == t
    ensures ByteTurn(data, o, t, turn) == t.(pos := t.pos + 1, stop := WriteError)
  {
    var w := Window(data, o, t, turn);
    assert w == 0 && data[t.pos..t.pos] == [];
    assert t.got + [] == t.got;
  }

  // ----- whole runs

  ghost predicate NoTimeouts(env: seq<Turn>) {
    forall i :: 0 <= i < |env| ==> !env[i].timedOut
  }

  /** The turn fits, if there is still something to do. */
  ghost predicate FitsNow(path: Path, data: seq<byte>, o: Order, t: Transfer, turn: Turn) {
    Wants(o, t) && t.pos < |data| ==> Fits(path, data, For(path, o), t, turn)
  }

  /** Every turn fits where the loop has come to. */
  ghost predicate FitsAll(path: Path, data: seq<byte>, o: Order, t: Transfer, env: seq<Turn>)
    requires t.pos <= |data|
    decreases |env|
  {
    env == [] ||
      (FitsAll(path, data, o, t, env[..|env| - 1]) &&
       FitsNow(path, data, o, Run(path, data, o, t, env[..|env| - 1]), env[|env| - 1]))
  }

  ghost function Productives(path: Path, o: Order, env: seq<Turn>): nat {
    if env == [] then 0 else
    Productives(path, o, env[..|env| - 1]) + if Productive(path, o, env[|env| - 1]) then 1 else 0
  }

  /** What holds after the turns of `env`. */
  ghost predicate RanLike(fits: bool, data: seq<byte>, o: Order, t: Transfer, r: Transfer, moved: nat)
    requires t.pos <= |data|
  {
    && r.pos <= |data|
    && if fits then
         && Same(Reference(data, o, r), Reference(data, o, t))
         && (Wants(o, r) && r.pos < |data| ==> r.pos >= t.pos + moved)
       else r.stop != Going && !Same(r, Reference(data, o, t))
  }

  lemma {:induction false} RunLikeReference(path: Path, data: seq<byte>, o: Order, t: Transfer, env: seq<Turn>)
    requires t.pos <= |data| && NoTimeouts(env) && (path == ByBlock ==> o.until < 0)
    ensures RanLike(FitsAll(path, data, o, t, env), data, For(path, o), t, Run(path, data, o, t, env),
                    Productives(path, o, env))
  {
    if env != [] {
      var before, turn := env[..|env| - 1], env[|env| - 1];
      assert NoTimeouts(before);
      RunLikeReference(path, data, o, t, before);
      RunLast(path, data, o, t, env);
      var s := Run(path, data, o, t, before);
      RanOneMore(path, data, o, t, s, turn, FitsAll(path, data, o, t, before), Productives(path, o, before));
    }
  }

  lemma RanOneMore(path: Path, data: seq<byte>, o: Order, t: Transfer, s: Transfer, turn: Turn, fits: bool, moved: nat)
    requires t.pos <= |data| && s.pos <= |data| && !turn.timedOut && (path == ByBlock ==> o.until < 0)
    requires RanLike(fits, data, For(path, o), t, s, moved)
    ensures RanLike(fits && FitsNow(path, data, o, s, turn), data, For(path, o), t, OneTurn(path, data, o, s, turn),
                    moved + if Productive(path, o, turn) then 1 else 0)
  {
    hide Fits;
    hide Productive;
    hide Reference;
    var r := OneTurn(path, data, o, s, turn);
    TurnMoves(path, data, o, s, turn);
    if Wants(o, s) && s.pos < |data| {
      TurnFollowsExactly(path, data, o, s, turn);
    } else {
      AtTheEnd(path, data, o, s, turn);
      ReferenceRests(data, For(path, o), s);
      ReferenceRests(data, For(path, o), r);
    }
    hide OneTurn;
  }

  lemma AtTheEnd(path: Path, data: seq<byte>, o: Order, s: Transfer, turn: Turn)
    requires s.pos <= |data| && (!Wants(o, s) || s.pos == |data|) && !turn.timedOut
    ensures var r := OneTurn(path, data, o, s, turn); Same(r, s) && (s.stop != Going ==> r == s)
  {
    if Wants(o, s) {
      var w := Window(data, o, s, turn);
      assert w == 0 && data[s.pos..s.pos] == [] && s.got + [] == s.got;
    }
  }

  /**
    Without timeouts, and with as many productive turns as there are bytes, a path ends as the plain transfer does if
    and only if every turn fits where the loop has come to.
  */
  lemma RunIsReferenceExactly(path: Path, data: seq<byte>, o: Order, t: Transfer, env: seq<Turn>)
    requires t.pos <= |data| && NoTimeouts(env) && (path == ByBlock ==> o.until < 0)
    requires Productives(path, o, env) >= |data| - t.pos
    ensures Same(Run(path, data, o, t, env), Reference(data, For(path, o), t)) <==> FitsAll(path, data, o, t, env)
  {
    hide Run;
    hide FitsAll;
    hide Productives;
    RunLikeReference(path, data, o, t, env);
    var r := Run(path, data, o, t, env);
    if !Wants(o, r) || r.pos == |data| {
      ReferenceRests(data, For(path, o), r);
    }
    hide Reference;
  }

  /**
    So two paths that look for the same delimiter move the same bytes, however these come and the room varies, as long
    as every turn fits; the second only then.
  */
  lemma PathsAgree(path: Path, path': Path, data: seq<byte>, o: Order, t: Transfer, env: seq<Turn>, env': seq<Turn>)
    requires t.pos <= |data| && NoTimeouts(env) && NoTimeouts(env') &&
             (path == ByBlock || path' == ByBlock ==> o.until < 0)
    requires Productives(path, o, env) >= |data| - t.pos && Productives(path', o, env') >= |data| - t.pos
    requires FitsAll(path, data, o, t, env) && For(path, o) == For(path', o)
    ensures Same(Run(path, data, o, t, env), Run(path', data, o, t, env')) <==> FitsAll(path', data, o, t, env')
  {
    hide Run;
    hide Reference;
    hide FitsAll;
    RunIsReferenceExactly(path, data, o, t, env);
    RunIsReferenceExactly(path', data, o, t, env');
  }

  /** A run of the path without timeouts in which every turn fits, and that gets through. */
  ghost predicate GoodRun(path: Path, data: seq<byte>, o: Order, t: Transfer, env: seq<Turn>) {
    t.pos <= |data| && NoTimeouts(env) && Productives(path, o, env) >= |data| - t.pos && FitsAll(path, data, o, t, env)
  }

  /** Reading from the peek buffer and byte by byte come to the same on all data. */
  ghost predicate AlwaysAgree(o: Order) {
    forall data: seq<byte>, t, env: seq<Turn>, env': seq<Turn> ::
      GoodRun(Peek, data, o, t, env) && GoodRun(ByByte, data, o, t, env') ==>
        Same(Run(Peek, data, o, t, env), Run(ByByte, data, o, t, env'))
  }

  /** The byte that only the peek path takes for the delimiter. */
  lemma LowByteDiffers(o: Order) returns (data: seq<byte>, t: Transfer, env: seq<Turn>)
    requires o.until >= 256
    ensures GoodRun(Peek, data, o, t, env) && GoodRun(ByByte, data, o, t, env)
    ensures !Same(Run(Peek, data, o, t, env), Run(ByByte, data, o, t, env))
  {
    var b: byte, turn := o.until % 256, Turn(1, 1, 1, 1, false);
    data, t, env := [b], Transfer(0, [], 0, Going), [turn];
    assert env[..0] == [];
    assert Window(data, o, t, turn) == Window(data, For(Peek, o), t, turn) == 1;
    assert data[0..1] == [b] && Find([b], b) == 0;
    assert FitsAll(Peek, data, o, t, []) && FitsAll(ByByte, data, o, t, []);
    assert Run(Peek, data, o, t, []) == t && Run(ByByte, data, o, t, []) == t;
    assert Productives(Peek, o, []) == 0 && Productives(ByByte, o, []) == 0;
    assert Run(Peek, data, o, t, env).stop == Hit;
    assert Run(ByByte, data, o, t, env).stop == Going;
  }

  /** They do so exactly for a delimiter that is a byte, or none. */
  lemma AgreeExactly(o: Order)
    ensures AlwaysAgree(o) <==> o.until < 256
  {
    hide Run;
    hide Same;
    if o.until < 256 {
      forall data: seq<byte>, t, env: seq<Turn>, env': seq<Turn>
          | GoodRun(Peek, data, o, t, env) && GoodRun(ByByte, data, o, t, env')
        ensures Same(Run(Peek, data, o, t, env), Run(ByByte, data, o, t, env'))
      {
        PathsAgree(Peek, ByByte, data, o, t, env, env');
      }
    } else {
      hide GoodRun;
      var data, t, env := LowByteDiffers(o);
    }
  }

  // ----- the methods

  /** A stream and all it will ever deliver; `StreamConstPtr` and `S2Stream` show all of it at every turn. */
  class Source {
    const data: seq<byte>
    var pos: nat

    ghost predicate Valid()
      reads this
    {
      pos <= |data|
    }

    constructor (data: seq<byte>)
      ensures Valid() && this.data == data && pos == 0
    {
      this.data, pos := data, 0;
    }

    method PeekConsume(n: nat)
      requires Valid() && pos + n <= |data|
      modifies this
      ensures Valid() && pos == old(pos) + n
    {
      pos := pos + n;
    }
  }

  class Sink {
    var got: seq<byte>

    constructor ()
      ensures got == []
    {
      got := [];
    }

    method Write(bytes: seq<byte>, accepts: nat) returns (n: nat)
      modifies this
      ensures n == Min(accepts, |bytes|) && got == old(got) + bytes[..n]
    {
      n := Min(accepts, |bytes|);
      got := got + bytes[..n];
    }
  }

  lemma SliceTwice(s: seq<byte>, a: nat, n: nat, k: nat, w: nat)
    requires a + n <= |s| && w <= k <= n
    ensures s[a..a + n][..k][..w] == s[a..a + w]
  {
    assert s[a..a + n][..k] == s[a..a + k];
  }

  /** The bytes of the window up to the delimiter, as many as the output takes, and the delimiter. */
  method MoveWindow(src: Source, to: Sink, until: int, accepts: nat, window: nat) returns (w: nat, foundChar: bool)
    requires src.Valid() && src.pos + window <= |src.data|
    modifies src, to
    ensures var k := if until >= 0 then Find(src.data[old(src.pos)..old(src.pos) + window], until % 256) else window;
            w == Min(accepts, k) && foundChar == (k < window)
    ensures src.Valid() && src.pos == old(src.pos) + w + (if foundChar then 1 else 0)
    ensures to.got == old(to.got) + src.data[old(src.pos)..old(src.pos) + w]
  {
    hide Find;
    var directbuf := src.data[src.pos..src.pos + window];
    w, foundChar := window, false;
    if until >= 0 {
      var last := Find(directbuf, until % 256);
      if last < window {
        w, foundChar := last, true;
      }
    }
    ghost var k := w;
    if w > 0 {
      w := to.Write(directbuf[..w], accepts);
      SliceTwice(src.data, src.pos, window, k, w);
      if w > 0 {
        src.PeekConsume(w);
      }
    }
    if foundChar {
      src.PeekConsume(1);
    }
  }

  /** A block read into a buffer, and as much of it written as the output takes. */
  method MoveBlock(src: Source, to: Sink, read: nat, accepts: nat) returns (w: nat)
    requires src.Valid() && src.pos + read <= |src.data|
    modifies src, to
    ensures w == Min(accepts, read) && src.Valid() && src.pos == old(src.pos) + read
    ensures to.got == old(to.got) + src.data[old(src.pos)..old(src.pos) + w]
  {
    var temp := src.data[src.pos..src.pos + read];
    SliceTwice(src.data, src.pos, read, read, Min(accepts, read));
    src.PeekConsume(read);
    w := to.Write(temp, accepts);
  }

  /** The room, limited by what is there and by what is still asked for. */
  method Limited(src: Source, o: Order, turn: Turn, available: nat, written: nat, ghost t: Transfer) returns (w: nat)
    requires src.Valid() && t.pos == src.pos && t.written == written && Wants(o, t) &&
             available == Shown(src.data, src.pos, turn)
    ensures w == Window(src.data, o, t, turn)
  {
    w := Min(turn.room, available);
    if o.maxLen > 0 {
      w := Min(w, o.maxLen - written);
    }
  }

  lemma TurnGivesUp(data: seq<byte>, o: Order, t: Transfer, turn: Turn)
    requires t.pos <= |data| && Wants(o, t)
    ensures Shown(data, t.pos, turn) == 0 && !o.inputCanTimeout ==>
              PeekTurn(data, For(Peek, o), t, turn) == BlockTurn(data, o, t, turn) == t.(stop := Starved)
    ensures !(Shown(data, t.pos, turn) == 0 && !o.inputCanTimeout) && turn.room == 0 && !o.outputCanTimeout ==>
              PeekTurn(data, For(Peek, o), t, turn) == BlockTurn(data, o, t, turn) == t.(stop := Full)
  {
    hide Find;
    hide Window;
  }

  lemma PeekTurnIs(data: seq<byte>, o: Order, t: Transfer, turn: Turn, w: nat, k: nat, n: nat)
    requires t.pos <= |data| && Wants(o, t) && w == Window(data, o, t, turn) && n == Min(turn.accepts, k)
    requires k == if o.until >= 0 then Find(data[t.pos..t.pos + w], o.until % 256) else w
    requires (Shown(data, t.pos, turn) == 0 ==> o.inputCanTimeout) && (turn.room == 0 ==> o.outputCanTimeout)
    ensures PeekTurn(data, For(Peek, o), t, turn) ==
            if w == 0 then Late(t, turn) else
            if k < w then Transfer(t.pos + n + 1, t.got + data[t.pos..t.pos + n], t.written + n, Hit)
            else Transfer(t.pos + n, t.got + data[t.pos..t.pos + n], t.written + n,
                          if turn.timedOut then TimedOut else Going)
  {
    hide Find;
    assert Window(data, For(Peek, o), t, turn) == w;
    assert t.got + [] == t.got;
  }

  lemma BlockTurnIs(data: seq<byte>, o: Order, t: Transfer, turn: Turn, w: nat, r: nat, n: nat)
    requires t.pos <= |data| && Wants(o, t) && w == Min(Window(data, o, t, turn), STACK_BUFFER)
    requires (Shown(data, t.pos, turn) == 0 ==> o.inputCanTimeout) && (turn.room == 0 ==> o.outputCanTimeout)
    requires turn.delivers >= 0 ==> r == Min(turn.delivers, w) && n == Min(turn.accepts, r)
    ensures BlockTurn(data, o, t, turn) ==
            if w == 0 then Late(t, turn) else
            if turn.delivers < 0 then t.(stop := ReadError) else
            Transfer(t.pos + r, t.got + data[t.pos..t.pos + n], t.written + n,
                     if n != r then WriteError else if turn.timedOut then TimedOut else Going)
  {
    hide Window;
  }

  method PeekStep(src: Source, to: Sink, o: Order, turn: Turn, before: nat) returns (written: nat, stop: Stop)
    requires src.Valid() && (o.maxLen == 0 || before < o.maxLen)
    modifies src, to
    ensures src.Valid()
    ensures Transfer(src.pos, to.got, written, stop) ==
            PeekTurn(src.data, For(Peek, o), Transfer(old(src.pos), old(to.got), before, Going), turn)
  {
    hide Find;
    hide PeekTurn;
    hide BlockTurn;
    hide Window;
    ghost var t := Transfer(src.pos, to.got, before, Going);
    TurnGivesUp(src.data, o, t, turn);
    written, stop := before, Going;
    var avpk := Min(turn.available, |src.data| - src.pos);
    if avpk == 0 && !o.inputCanTimeout {
      return before, Starved;
    }
    var w := turn.room;
    if w == 0 && !o.outputCanTimeout {
      return before, Full;
    }
    w := Limited(src, o, turn, avpk, written, t);
    ghost var k := if o.until >= 0 then Find(src.data[src.pos..src.pos + w], o.until % 256) else w;
    PeekTurnIs(src.data, o, t, turn, w, k, Min(turn.accepts, k));
    if w > 0 {
      var n, foundChar := MoveWindow(src, to, o.until, turn.accepts, w);
      written := written + n;
      if foundChar {
        return written, Hit;
      }
    }
    if turn.timedOut {
      stop := TimedOut;
    }
  }

  method ByteStep(src: Source, to: Sink, o: Order, turn: Turn, before: nat) returns (written: nat, stop: Stop)
    requires src.Valid() && (o.maxLen == 0 || before < o.maxLen)
    modifies src, to
    ensures src.Valid()
    ensures Transfer(src.pos, to.got, written, stop) ==
            ByteTurn(src.data, o, Transfer(old(src.pos), old(to.got), before, Going), turn)
  {
    written, stop := before, Going;
    var avr := Min(turn.available, |src.data| - src.pos);
    if avr == 0 && !o.inputCanTimeout {
      return before, Starved;
    }
    if turn.room == 0 && !o.outputCanTimeout {
      return before, Full;
    }
    if src.pos < |src.data| && turn.delivers > 0 {
      var c := src.data[src.pos];
      src.PeekConsume(1);
      if c == o.until {
        return before, Hit;
      }
      var w := to.Write([c], turn.accepts);
      if w != 1 {
        assert [c][..0] == [];
        return before, WriteError;
      }
      written := written + 1;
    }
    if turn.timedOut {
      stop := TimedOut;
    }
  }

  method BlockStep(src: Source, to: Sink, o: Order, turn: Turn, before: nat) returns (written: nat, stop: Stop)
    requires src.Valid() && (o.maxLen == 0 || before < o.maxLen)
    modifies src, to
    ensures src.Valid()
    ensures Transfer(src.pos, to.got, written, stop) ==
            BlockTurn(src.data, o, Transfer(old(src.pos), old(to.got), before, Going), turn)
  {
    hide PeekTurn;
    hide BlockTurn;
    hide Window;
    ghost var t := Transfer(src.pos, to.got, before, Going);
    TurnGivesUp(src.data, o, t, turn);
    written, stop := before, Going;
    var avr := Min(turn.available, |src.data| - src.pos);
    if avr == 0 && !o.inputCanTimeout {
      return before, Starved;
    }
    var w := turn.room;
    if w == 0 && !o.outputCanTimeout {
      return before, Full;
    }
    w := Limited(src, o, turn, avr, written, t);
    w := Min(w, STACK_BUFFER);
    ghost var r := if turn.delivers < 0 then 0 else Min(turn.delivers, w);
    BlockTurnIs(src.data, o, t, turn, w, r, Min(turn.accepts, r));
    if w > 0 {
      if turn.delivers < 0 {
        return before, ReadError;
      }
      var read := Min(turn.delivers, w);
      w := MoveBlock(src, to, read, turn.accepts);
      written := written + w;
      if read != w {
        return written, WriteError;
      }
    }
    if turn.timedOut {
      stop := TimedOut;
    }
  }

  /** A loop that has ended does nothing in the turns it does not take. */
  lemma {:induction false} RunStays(path: Path, data: seq<byte>, o: Order, t: Transfer, env: seq<Turn>, n: nat)
    requires t.pos <= |data| && n <= |env| && !Wants(o, Run(path, data, o, t, env[..n]))
    ensures Run(path, data, o, t, env) == Run(path, data, o, t, env[..n])
    decreases |env| - n
  {
    hide Wants;
    if n == |env| {
      assert env[..n] == env;
    } else {
      var more := env[..n + 1];
      assert more[..n] == env[..n];
      RunLast(path, data, o, t, more);
      TurnMoves(path, data, o, Run(path, data, o, t, env[..n]), env[n]);
      hide Run;
      hide OneTurn;
      RunStays(path, data, o, t, env, n + 1);
    }
  }

  /** `SendGenericPeekBuffer`, `SendGenericRegularUntil` and `SendGenericRegular`, for as many turns as `env` has. */
  method Send(path: Path, src: Source, to: Sink, o: Order, env: seq<Turn>) returns (written: nat, stop: Stop)
    requires src.Valid()
    modifies src, to
    ensures src.Valid()
    ensures Transfer(src.pos, to.got, written, stop) ==
            Run(path, src.data, o, Transfer(old(src.pos), old(to.got), 0, Going), env)
  {
    hide PeekTurn;
    hide ByteTurn;
    hide BlockTurn;
    ghost var t := Transfer(src.pos, to.got, 0, Going);
    written, stop := 0, Going;
    var i := 0;
    assert env[..0] == [];
    while i < |env| && stop == Going && (o.maxLen == 0 || written < o.maxLen)
      invariant 0 <= i <= |env| && src.Valid()
      invariant Transfer(src.pos, to.got, written, stop) == Run(path, src.data, o, t, env[..i])
    {
      assert env[..i + 1][..i] == env[..i];
      match path {
        case Peek => written, stop := PeekStep(src, to, o, env[i], written);
        case ByByte => written, stop := ByteStep(src, to, o, env[i], written);
        case ByBlock => written, stop := BlockStep(src, to, o, env[i], written);
      }
      i := i + 1;
    }
    if i == |env| {
      assert env[..i] == env;
    } else {
      RunStays(path, src.data, o, t, env, i);
    }
  }

  // ----- errors

  /** A block that is wanted cannot be read. */
  ghost predicate ReadFails(data: seq<byte>, o: Order, t: Transfer, turn: Turn) {
    Wants(o, t) && turn.available > 0 && turn.room > 0 && t.pos < |data| && turn.delivers < 0
  }

  /** The byte, or some byte of the block, that was read is not taken; the peek buffer takes nothing out before. */
  ghost predicate WriteFails(path: Path, data: seq<byte>, o: Order, t: Transfer, turn: Turn) {
    && Wants(o, t) && t.pos < |data| && turn.delivers > 0
    && match path
       case Peek => false
       case ByByte =>
         && (turn.available > 0 || o.inputCanTimeout) && (turn.room > 0 || o.outputCanTimeout)
         && data[t.pos] != o.until && turn.accepts == 0
       case ByBlock =>
         && turn.accepts < turn.delivers && turn.accepts < turn.available && turn.accepts < turn.room
         && turn.accepts < |data| - t.pos && turn.accepts < 64 && (o.maxLen > 0 ==> turn.accepts < o.maxLen - t.written)
  }

  lemma TurnErrorsExactly(path: Path, data: seq<byte>, o: Order, t: Transfer, turn: Turn)
    requires t.pos <= |data| && Wants(o, t)
    ensures var r := OneTurn(path, data, o, t, turn);
            && (r.stop == ReadError <==> path == ByBlock && ReadFails(data, o, t, turn))
            && (r.stop == WriteError <==> WriteFails(path, data, o, t, turn))
  {
    hide Find;
  }

  /** The delimiter is in sight on the peek path, or is the byte read on the byte path. */
  ghost predicate Meets(path: Path, data: seq<byte>, o: Order, t: Transfer, turn: Turn) {
    match path
    case Peek =>
      o.until >= 0 &&
      exists i :: t.pos <= i < |data| && i - t.pos < turn.available && i - t.pos < turn.room &&
                  (o.maxLen > 0 ==> i - t.pos < o.maxLen - t.written) && data[i] == o.until % 256
    case ByByte => t.pos < |data| && turn.delivers > 0 && data[t.pos] == o.until
    case ByBlock => false
  }

  /**
    Why a turn ends the loop: the source has nothing and cannot wait, or else the output has no room and cannot wait, or
    else the delimiter is met, or else there is an error, or else the time is over.
  */
  lemma TurnStopsExactly(path: Path, data: seq<byte>, o: Order, t: Transfer, turn: Turn)
    requires t.pos <= |data| && Wants(o, t)
    ensures var stop := OneTurn(path, data, o, t, turn).stop;
            var dry := (turn.available == 0 || t.pos == |data|) && !o.inputCanTimeout;
            var full := turn.room == 0 && !o.outputCanTimeout;
            && (stop == Starved <==> dry)
            && (stop == Full <==> !dry && full)
            && (stop == Hit <==> !dry && !full && Meets(path, data, o, t, turn))
            && (stop == TimedOut <==>
                  turn.timedOut && !dry && !full && !Meets(path, data, o, t, turn) &&
                  !(path == ByBlock && ReadFails(data, o, t, turn)) && !WriteFails(path, data, o, t, turn))
  {
    hide Find;
    hide Window;
    TurnErrorsExactly(path, data, o, t, turn);
    hide ReadFails;
    hide WriteFails;
    if path == Peek && o.until >= 0 {
      MetInWindow(data, o, t, turn);
    }
  }

  lemma MetInWindow(data: seq<byte>, o: Order, t: Transfer, turn: Turn)
    requires t.pos <= |data| && Wants(o, t) && o.until >= 0
    ensures var w := Window(data, For(Peek, o), t, turn);
            Find(data[t.pos..t.pos + w], o.until % 256) < w <==> Meets(Peek, data, o, t, turn)
  {
    var w := Window(data, For(Peek, o), t, turn);
    var window, c := data[t.pos..t.pos + w], o.until % 256;
    assert forall i :: t.pos <= i < t.pos + w ==> data[i] == window[i - t.pos];
    var k := Find(window, c);
    if k < w {
      assert data[t.pos + k] == c;
    }
  }

  /** A run ends with an error exactly if one of its turns meets it. */
  lemma {:induction false} ErrorsExactly(path: Path, data: seq<byte>, o: Order, t: Transfer, env: seq<Turn>)
    requires t.pos <= |data| && t.stop == Going
    ensures Run(path, data, o, t, env).stop == ReadError <==>
              path == ByBlock &&
              exists n :: 0 <= n < |env| && ReadFails(data, o, Run(path, data, o, t, env[..n]), env[n])
    ensures Run(path, data, o, t, env).stop == WriteError <==>
              exists n :: 0 <= n < |env| && WriteFails(path, data, o, Run(path, data, o, t, env[..n]), env[n])
  {
    hide *;
    if env == [] {
      NoTurns(path, data, o, t);
    } else {
      var m := |env| - 1;
      ErrorsExactly(path, data, o, t, env[..m]);
      RunLast(path, data, o, t, env);
      var s := Run(path, data, o, t, env[..m]);
      assert forall n :: 0 <= n < m ==> env[..m][..n] == env[..n] && env[..m][n] == env[n];
      LastTurnErrors(path, data, o, s, env[m]);
    }
  }

  lemma NoTurns(path: Path, data: seq<byte>, o: Order, t: Transfer)
    requires t.pos <= |data|
    ensures Run(path, data, o, t, []) == t
  {
  }

  lemma LastTurnErrors(path: Path, data: seq<byte>, o: Order, s: Transfer, turn: Turn)
    requires s.pos <= |data|
    ensures var r := OneTurn(path, data, o, s, turn);
            && (r.stop == ReadError <==> s.stop == ReadError || (path == ByBlock && ReadFails(data, o, s, turn)))
            && (r.stop == WriteError <==> s.stop == WriteError || WriteFails(path, data, o, s, turn))
  {
    hide OneTurn;
    TurnMoves(path, data, o, s, turn);
    if Wants(o, s) {
      TurnErrorsExactly(path, data, o, s, turn);
    }
  }

  // ----- sendGeneric

  datatype Report = Success | SendTimedOut | SendReadError | SendWriteError | ShortOperation

  /** Every turn fits, none runs out of time, and there are enough of them. */
  ghost predicate Fitting(path: Path, data: seq<byte>, o: Order, t: Transfer, env: seq<Turn>)
    requires t.pos <= |data|
  {
    NoTimeouts(env) && Productives(path, o, env) >= |data| - t.pos && FitsAll(path, data, o, t, env)
  }

  /** What the loops come to, in terms of the bytes, for the delimiter `c` that the path looks for. */
  lemma RunMeans(path: Path, data: seq<byte>, o: Order, t: Transfer, env: seq<Turn>, c: int)
    requires t.pos <= |data| && t.stop == Going && t.written == 0 && (path == ByBlock ==> o.until < 0)
    requires c == if path == Peek && o.until >= 0 then o.until % 256 else o.until
    ensures var r := Run(path, data, o, t, env);
            && Conserved(data, o, t, r) && DropsOnly(path, t, r)
            && (Fitting(path, data, o, t, env) ==>
                  PlainlySent(data, o.(until := c), t, r.(stop := if r.stop == Hit then Hit else Going)))
            && (Honest(env) && o.until >= 0 ==> Delimited(data, o.(until := c), t, r))
  {
    hide *;
    LooksFor(path, o, c);
    BytesConserved(path, data, o, t, env);
    if Fitting(path, data, o, t, env) {
      FittingIsPlain(path, data, o, t, env);
    }
    if Honest(env) && o.until >= 0 {
      NotByBlock(path, o);
      DelimiterDropped(path, data, o, t, env);
    }
  }

  lemma LooksFor(path: Path, o: Order, c: int)
    requires c == if path == Peek && o.until >= 0 then o.until % 256 else o.until
    ensures For(path, o) == o.(until := c)
  {
  }

  lemma NotByBlock(path: Path, o: Order)
    requires (path == ByBlock ==> o.until < 0) && o.until >= 0
    ensures path != ByBlock
  {
  }

  lemma FittingIsPlain(path: Path, data: seq<byte>, o: Order, t: Transfer, env: seq<Turn>)
    requires t.pos <= |data| && t.stop == Going && t.written == 0 && (path == ByBlock ==> o.until < 0)
    requires Fitting(path, data, o, t, env)
    ensures var r := Run(path, data, o, t, env);
            PlainlySent(data, For(path, o), t, r.(stop := if r.stop == Hit then Hit else Going))
  {
    hide Run;
    hide Reference;
    hide FitsAll;
    hide Productives;
    RunIsReferenceExactly(path, data, o, t, env);
    ReferenceMeans(data, For(path, o), t);
  }

  /**
    `sendGeneric`; `timeout` and `late` are the timeout and what the last look at it says. With a peek buffer the low
    byte of a delimiter is looked for, without one the whole of it, byte by byte; blocks are read if there is none.
  */
  method SendGeneric(src: Source, to: Sink, len: int, until: int, hasPeek: bool, canIn: bool, canOut: bool,
                     env: seq<Turn>, timeout: nat, late: bool)
    returns (written: nat, report: Report, ghost path: Path, ghost stop: Stop)
    requires src.Valid()
    modifies src, to
    ensures src.Valid() && old(src.pos) + written <= src.pos
    ensures to.got == old(to.got) + src.data[old(src.pos)..old(src.pos) + written]
    ensures len == 0 ==> written == 0 && report == Success && src.pos == old(src.pos)
    // the path
    ensures (path == Peek <==> hasPeek) && (path == ByByte <==> !hasPeek && until >= 0)
    // the bytes
    ensures var o := Order(if len > 0 then len else 0, until, canIn, canOut);
            var t, r := Transfer(old(src.pos), old(to.got), 0, Going), Transfer(src.pos, to.got, written, stop);
            var looked := o.(until := if hasPeek && until >= 0 then until % 256 else until);
            len != 0 ==>
              && r == Run(path, src.data, o, t, env) && DropsOnly(path, t, r)
              && (Fitting(path, src.data, o, t, env) ==>
                    PlainlySent(src.data, looked, t, r.(stop := if stop == Hit then Hit else Going)))
              && (Honest(env) && until >= 0 ==> Delimited(src.data, looked, t, r))
    // the report
    ensures len > 0 ==> written <= len
    ensures len != 0 ==>
              && (report == SendReadError <==> stop == ReadError)
              && (report == SendWriteError <==> stop == WriteError)
              && (report == SendTimedOut <==> stop !in {ReadError, WriteError} && len > 0 && timeout != 0 && late)
              && (report == ShortOperation <==>
                    stop !in {ReadError, WriteError} && !(timeout != 0 && late) && written < len)
    ensures var o := Order(if len > 0 then len else 0, until, canIn, canOut);
            var t := Transfer(old(src.pos), old(to.got), 0, Going);
            len != 0 ==>
              && (report == SendReadError <==>
                    !hasPeek && until < 0 &&
                    exists n :: 0 <= n < |env| && ReadFails(src.data, o, Run(path, src.data, o, t, env[..n]), env[n]))
              && (report == SendWriteError <==>
                    exists n :: 0 <= n < |env| &&
                      WriteFails(path, src.data, o, Run(path, src.data, o, t, env[..n]), env[n]))
  {
    hide Run;
    hide DropsOnly;
    hide PlainlySent;
    hide Delimited;
    hide Fitting;
    hide Honest;
    hide ReadFails;
    hide WriteFails;
    path, stop := if hasPeek then Peek else if until >= 0 then ByByte else ByBlock, Going;
    if len == 0 {
      return 0, Success, path, stop;
    }
    ghost var t := Transfer(src.pos, to.got, 0, Going);
    var o := Order(if len < 0 then 0 else len, until, canIn, canOut);
    RunMeans(path, src.data, o, t, env, if hasPeek && until >= 0 then until % 256 else until);
    ErrorsExactly(path, src.data, o, t, env);
    var ended;
    if hasPeek {
      written, ended := Send(Peek, src, to, o, env);
    } else if until >= 0 {
      written, ended := Send(ByByte, src, to, o, env);
    } else {
      written, ended := Send(ByBlock, src, to, o, env);
    }
    stop := ended;
    report := if ended == ReadError then SendReadError else if ended == WriteError then SendWriteError else Success;
    if report == Success && len > 0 {
      if timeout != 0 && late {
        report := SendTimedOut;
      } else if written != len {
        report := ShortOperation;
      }
    }
  }
}
