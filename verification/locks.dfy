/**
 * The `.block` marker protocol that guards each shelf file: a marker holds
 * the owner's uuid and the time it was written, separated by a tab, and it
 * shuts other owners out for ten seconds. The clock is a parameter, read in
 * whole seconds.
 */
module Locks {
  import opened Wrappers
  import Decimal
  import opened Strings

  /** `datetime.timedelta(seconds=10)`: how long a marker keeps other owners out. */
  const Window: int := 10

  /** The contents of a `.block` file once read: who wrote it and when. */
  datatype Marker = Marker(owner: string, stamp: int)

  /** What `is_blocked` finds at `<file>.block`. */
  datatype LockFile =
    | Absent              // `os.path.exists` is false, or the file vanished before `open`
    | Unreadable          // `open` raised PermissionError
    | Written(text: string)

  /** The exception `_block` raises. */
  datatype LockError = BlockedFile

  /** The text `_block` writes: `"{uuid}\t{now}"`. */
  function Render(m: Marker): string {
    m.owner + "\t" + Decimal.Show(m.stamp)
  }

  /** An owner as `uuid4` renders it: no tab, and no leading newline (the stamp ends the text). */
  predicate Plain(owner: string) {
    && '\t' !in owner
    && (|owner| > 0 ==> owner[0] != '\n')
  }

  /**
   * Reading a marker back: `block.read().strip("\n").split("\t")` must give
   * exactly two pieces and the second must be a time; otherwise the
   * ValueError is swallowed and `None` stands for it.
   */
  function ParseMarker(text: string): (r: Option<Marker>)
    ensures r.Some? ==> '\t' !in r.value.owner
  {
    var parts := Split(Strip(text, '\n'), '\t');
    if |parts| != 2 then
      None
    else
      match Decimal.Parse(parts[1])
      case None => None
      case Some(t) => Some(Marker(parts[0], t))
  }

  /** Every marker `_block` writes reads back as itself. */
  lemma RenderParses(m: Marker)
    requires Plain(m.owner)
    ensures ParseMarker(Render(m)) == Some(m)
  {
    var time := Decimal.Show(m.stamp);
    var text := Render(m);
    assert '\t' !in time by {
      forall i | 0 <= i < |time| ensures time[i] != '\t' {
      }
    }
    assert text[|text| - 1] == time[|time| - 1];
    assert text[0] != '\n' by {
      if |m.owner| == 0 {
        assert text[0] == '\t';
      } else {
        assert text[0] == m.owner[0];
      }
    }
    StripKeeps(text, '\n');
    SplitPair(m.owner, time, '\t');
    Decimal.ParseShow(m.stamp);
  }

  /**
   * `is_blocked`: a marker that cannot be opened blocks; one that opens but
   * does not parse does not; a parsed marker blocks every owner but its own
   * until ten seconds have passed.
   */
  predicate IsBlocked(file: LockFile, me: string, now: int) {
    match file
    case Absent => false
    case Unreadable => true
    case Written(text) =>
      match ParseMarker(text)
      case None => false
      case Some(m) => m.owner != me && m.stamp + Window > now
  }

  /** `_block`: fail with BlockedFile while blocked, otherwise write this owner's marker stamped `now`. */
  function Block(file: LockFile, me: string, now: int): (r: Result<LockFile, LockError>)
    ensures r.Err? <==> IsBlocked(file, me, now)
    ensures r.Ok? ==> r.value.Written? && (Plain(me) ==> ParseMarker(r.value.text) == Some(Marker(me, now)))
  {
    if IsBlocked(file, me, now) then
      Err(BlockedFile)
    else
      assert Plain(me) ==> ParseMarker(Render(Marker(me, now))) == Some(Marker(me, now)) by {
        if Plain(me) {
          RenderParses(Marker(me, now));
        }
      }
      Ok(Written(Render(Marker(me, now))))
  }

  /** `_unblock`: remove the marker unless it blocks the caller; a missing file stays missing. */
  function Unblock(file: LockFile, me: string, now: int): (r: LockFile)
    ensures r == file || r == Absent
    ensures r == Absent <==> file == Absent || !IsBlocked(file, me, now)
  {
    if IsBlocked(file, me, now) then file else Absent
  }

  /** A marker never blocks the owner who wrote it. */
  lemma OwnNeverBlocks(m: Marker, now: int)
    requires Plain(m.owner)
    ensures !IsBlocked(Written(Render(m)), m.owner, now)
  {
    RenderParses(m);
  }

  /** Another owner's marker blocks exactly while fewer than ten seconds have passed since its stamp. */
  lemma ForeignBlocksWhileFresh(m: Marker, me: string, now: int)
    requires Plain(m.owner) && me != m.owner
    ensures IsBlocked(Written(Render(m)), me, now) <==> now < m.stamp + Window
  {
    RenderParses(m);
  }

  /**
   * `is_blocked` case by case: a missing marker blocks nobody, an unreadable one blocks everybody,
   * one that does not parse blocks nobody, and the marker written for `m` blocks exactly another
   * owner until ten seconds after its stamp.
   */
  lemma IsBlockedCases(m: Marker, text: string, me: string, now: int)
    requires Plain(m.owner)
    ensures !IsBlocked(Absent, me, now)
    ensures IsBlocked(Unreadable, me, now)
    ensures ParseMarker(text).None? ==> !IsBlocked(Written(text), me, now)
    ensures IsBlocked(Written(Render(m)), me, now) <==> m.owner != me && now < m.stamp + Window
  {
    RenderParses(m);
  }

  /** A marker that does not parse blocks nobody. */
  lemma GarbageNeverBlocks(text: string, me: string, now: int)
    ensures ParseMarker(text).None? ==> !IsBlocked(Written(text), me, now)
  {
  }

  /**
   * Mutual exclusion: once owner `a` holds the marker written at `t`, any other
   * owner's `_block` within the next ten seconds fails, and `a` may block again.
   */
  lemma {:induction false} Exclusive(file: LockFile, a: string, b: string, t: int, now: int)
    requires Plain(a) && a != b && Block(file, a, t).Ok?
    ensures t <= now < t + Window ==> Block(Block(file, a, t).value, b, now) == Err(BlockedFile)
    ensures Block(Block(file, a, t).value, a, now).Ok?
  {
    var m := Marker(a, t);
    assert Block(file, a, t).value == Written(Render(m));
    ForeignBlocksWhileFresh(m, b, now);
    OwnNeverBlocks(m, now);
  }

  /** A stale marker is taken over: ten seconds after its stamp anyone may block. */
  lemma {:induction false} StaleTakeover(m: Marker, me: string, now: int)
    requires Plain(m.owner) && Plain(me) && now >= m.stamp + Window
    ensures var r := Block(Written(Render(m)), me, now);
      r.Ok? && ParseMarker(r.value.text) == Some(Marker(me, now))
  {
    RenderParses(m);
    assert !IsBlocked(Written(Render(m)), me, now);
  }

  /** `_unblock` by the owner removes the marker that owner's `_block` wrote. */
  lemma {:induction false} UnblockOwn(file: LockFile, me: string, t: int, now: int)
    requires Plain(me) && Block(file, me, t).Ok?
    ensures Unblock(Block(file, me, t).value, me, now) == Absent
  {
    OwnNeverBlocks(Marker(me, t), now);
    assert Block(file, me, t).value == Written(Render(Marker(me, t)));
  }

  /** `_unblock` by anyone else leaves a live marker in place and clears a stale one. */
  lemma {:induction false} UnblockForeign(m: Marker, me: string, now: int)
    requires Plain(m.owner) && me != m.owner
    ensures now < m.stamp + Window ==> Unblock(Written(Render(m)), me, now) == Written(Render(m))
    ensures now >= m.stamp + Window ==> Unblock(Written(Render(m)), me, now) == Absent
  {
    ForeignBlocksWhileFresh(m, me, now);
  }
}
