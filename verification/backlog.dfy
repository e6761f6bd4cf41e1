/**
  The input poller: the game asks for one key event per call. Queued key
  indices are served last-in first-out; an empty queue is refilled from the
  control file, which is then emptied. Serving a key flips that key's
  pressed state, reports the new state with the key's game key, and renames
  the key's desktop icon between NAME and NAME(ACTIVE) to match.
 */
module Backlog {
  import opened Wrappers
  import opened Ascii
  import opened Keys
  import opened ControlFile

  /** Which of its two names a control's icon file carries: NAME, or NAME(ACTIVE). */
  datatype Marker = Plain | Active

  /** The icon name that matches a pressed state. */
  function MarkerFor(pressed: bool): Marker {
    if pressed then Active else Plain
  }

  /**
    Everything the poller reads and writes: the queued key indices (the last
    one is served first), each control's pressed state, each control's icon
    name, and the contents of the control file.
   */
  datatype State = State(backlog: seq<byte>, pressed: seq<bool>, markers: seq<Marker>, control: seq<byte>)

  /** What one poll returns: 0, or 1 with the key's new pressed state and its game key. */
  datatype Reply = NoKey | KeyEvent(pressed: bool, doomKey: DoomKey)

  /** One poll: the state after it, its reply, and whether it read the control file. */
  datatype Poll = Poll(next: State, reply: Reply, readControl: bool)

  /** Every value is a valid index into the control table. */
  predicate Indexed(vs: seq<byte>) {
    forall i :: 0 <= i < |vs| ==> (vs[i] as int) < KEY_COUNT
  }

  /**
    What the poller relies on and does not check: one pressed flag and one
    icon per control, every queued index and every index in the control
    file names a control, and the control file holds only numbers and
    whitespace.
   */
  predicate Ready(s: State) {
    && |s.pressed| == KEY_COUNT
    && |s.markers| == KEY_COUNT
    && Indexed(s.backlog)
    && Parse(s.control).Some?
    && Indexed(Parse(s.control).value)
  }

  /** Each control's icon name agrees with its pressed state. */
  predicate Mirrored(s: State)
    requires |s.pressed| == KEY_COUNT && |s.markers| == KEY_COUNT
  {
    forall i :: 0 <= i < KEY_COUNT ==> s.markers[i] == MarkerFor(s.pressed[i])
  }

  /**
    `rename(from, to)` of control `i`'s icon: it succeeds only when the icon
    currently carries the name `from`; otherwise the rename fails, which the
    program treats as fatal.
   */
  function Rename(markers: seq<Marker>, i: nat, from: Marker, to: Marker): (r: Option<seq<Marker>>)
    requires i < |markers|
    ensures r.Some? <==> markers[i] == from
    ensures r.Some? ==> |r.value| == |markers| && r.value[i] == to
    ensures r.Some? ==> forall j :: 0 <= j < |markers| && j != i ==> r.value[j] == markers[j]
  {
    if markers[i] == from then Some(markers[i := to]) else None
  }

  /** Serves the last queued index. `None` is the fatal rename failure. */
  function Serve(s: State): (r: Option<Poll>)
    requires |s.pressed| == KEY_COUNT && |s.markers| == KEY_COUNT
    requires |s.backlog| > 0 && Indexed(s.backlog)
  {
    var keyi := s.backlog[|s.backlog| - 1] as nat;
    var p := !s.pressed[keyi];
    var markers :- Rename(s.markers, keyi, MarkerFor(!p), MarkerFor(p));
    Some(Poll(State(s.backlog[..|s.backlog| - 1], s.pressed[keyi := p], markers, s.control),
              KeyEvent(p, KEYS[keyi].doomKey), false))
  }

  /**
    One call of the poller. A non-empty backlog is served without touching
    the control file. Otherwise the control file is read: if it held
    numbers, they become the backlog, the file is emptied and the last of
    them is served in the same call; if not, the call reports no key and
    changes nothing.
   */
  function GetKey(s: State): (r: Option<Poll>)
    requires Ready(s)
    ensures Mirrored(s) ==> r.Some?
    ensures r.Some? ==> Ready(r.value.next) && (Mirrored(s) ==> Mirrored(r.value.next))
    ensures r.Some? ==> (r.value.readControl <==> |s.backlog| == 0)
    ensures r.Some? ==> (r.value.reply.NoKey? <==> |s.backlog| == 0 && Parse(s.control) == Some([]))
  {
    if |s.backlog| > 0 then
      ServeKeeps(s);
      Serve(s)
    else
      var vs := Parse(s.control).value;
      if |vs| > 0 then
        var refilled := State(vs, s.pressed, s.markers, []);
        ServeKeeps(refilled);
        var p :- Serve(refilled);
        Some(p.(readControl := true))
      else Some(Poll(s, NoKey, true))
  }

  /** Serving keeps the poller's assumptions, never fails while icons mirror keys, and keeps them mirrored. */
  lemma ServeKeeps(s: State)
    requires |s.pressed| == KEY_COUNT && |s.markers| == KEY_COUNT
    requires |s.backlog| > 0 && Indexed(s.backlog)
    requires Parse(s.control).Some? && Indexed(Parse(s.control).value)
    ensures Mirrored(s) ==> Serve(s).Some?
    ensures Serve(s).Some? ==> Ready(Serve(s).value.next)
    ensures Serve(s).Some? && Mirrored(s) ==> Mirrored(Serve(s).value.next)
  {
    var keyi := s.backlog[|s.backlog| - 1] as nat;
    if Serve(s).Some? {
      var n := Serve(s).value.next;
      assert n.backlog == s.backlog[..|s.backlog| - 1];
      if Mirrored(s) {
        forall i | 0 <= i < KEY_COUNT
          ensures n.markers[i] == MarkerFor(n.pressed[i])
        {
          if i != keyi {
            assert n.markers[i] == s.markers[i];
          }
        }
      }
    }
  }

  /**
    Pop: a non-empty backlog loses its last index and nothing else; that
    control's pressed state flips and is reported with its game key; the
    other controls and the control file are untouched.
   */
  lemma ServeLast(s: State)
    requires Ready(s) && Mirrored(s) && |s.backlog| > 0
    ensures var keyi := s.backlog[|s.backlog| - 1] as nat;
            && GetKey(s).Some?
            && GetKey(s).value.reply == KeyEvent(!s.pressed[keyi], KEYS[keyi].doomKey)
            && !GetKey(s).value.readControl
            && GetKey(s).value.next.backlog + [s.backlog[|s.backlog| - 1]] == s.backlog
            && GetKey(s).value.next.pressed == s.pressed[keyi := !s.pressed[keyi]]
            && GetKey(s).value.next.markers[keyi] == MarkerFor(!s.pressed[keyi])
            && GetKey(s).value.next.control == s.control
  {
    var b := s.backlog;
    assert b[..|b| - 1] + [b[|b| - 1]] == b;
  }

  /**
    Refill: with an empty backlog and numbers in the control file, the poll
    reads the file, empties it, queues all but the last number in file order
    and serves the last one.
   */
  lemma RefillServesLast(s: State, vs: seq<byte>)
    requires Ready(s) && Mirrored(s) && |s.backlog| == 0
    requires Parse(s.control) == Some(vs) && |vs| > 0
    ensures var keyi := vs[|vs| - 1] as nat;
            && GetKey(s).Some?
            && GetKey(s).value.readControl
            && GetKey(s).value.reply == KeyEvent(!s.pressed[keyi], KEYS[keyi].doomKey)
            && GetKey(s).value.next.backlog == vs[..|vs| - 1]
            && GetKey(s).value.next.pressed == s.pressed[keyi := !s.pressed[keyi]]
            && GetKey(s).value.next.control == []
  {
  }

  /**
    Toggle alternation: when the same control is queued twice on top, the
    two polls that serve it report opposite pressed states for the same
    game key, and leave its pressed state and icon name as they were.
   */
  lemma PopTwice(s: State)
    requires Ready(s) && Mirrored(s) && |s.backlog| >= 2
    requires s.backlog[|s.backlog| - 1] == s.backlog[|s.backlog| - 2]
    ensures GetKey(s).Some? && GetKey(GetKey(s).value.next).Some?
    ensures var p1 := GetKey(s).value;
            var p2 := GetKey(p1.next).value;
            && p1.reply.KeyEvent? && p2.reply.KeyEvent?
            && p1.reply.pressed != p2.reply.pressed
            && p1.reply.doomKey == p2.reply.doomKey
            && p2.next.pressed == s.pressed
            && p2.next.markers == s.markers
  {
    var k := s.backlog[|s.backlog| - 1] as nat;
    ServeLast(s);
    var p1 := GetKey(s).value;
    assert p1.next.backlog[|p1.next.backlog| - 1] as nat == k;
    ServeLast(p1.next);
    var p2 := GetKey(p1.next).value;
    assert p2.next.pressed == s.pressed;
    forall i | 0 <= i < KEY_COUNT
      ensures p2.next.markers[i] == s.markers[i]
    {
    }
  }

  /** Nothing to read: the poll reports no key and leaves every part of the state as it was. */
  lemma NothingQueued(s: State)
    requires Ready(s) && |s.backlog| == 0 && Parse(s.control) == Some([])
    ensures GetKey(s) == Some(Poll(s, NoKey, true))
  {
  }

  /** A key script run: the control file gains one line holding the control's index. */
  function Press(s: State, i: nat): (r: State)
    requires i < KEY_COUNT
    ensures |s.control| <= |r.control|
    ensures r.control[..|s.control|] == s.control
    ensures r.control[|s.control|..] == Line(i as byte)
    ensures r.backlog == s.backlog && r.pressed == s.pressed && r.markers == s.markers
  {
    s.(control := s.control + Line(i as byte))
  }

  /** Pressing after a separated control file queues the control last in what the next read returns. */
  lemma PressQueues(s: State, i: nat)
    requires Ready(s) && Separated(s.control) && i < KEY_COUNT
    ensures Ready(Press(s, i)) && Separated(Press(s, i).control)
    ensures Parse(Press(s, i).control) == Some(Parse(s.control).value + [i as byte])
  {
    var line := Line(i as byte);
    var t := s.control + line;
    assert Press(s, i).control == t;
    AppendLine(s.control, i as byte);
    var vs := Parse(s.control).value;
    assert Parse(t) == Some(vs + [i as byte]);
    IndexedSnoc(vs, i as byte);
    assert line[|line| - 2..][1] == NEWLINE;
    assert t[|t| - 1] == NEWLINE;
  }

  lemma IndexedSnoc(vs: seq<byte>, v: byte)
    requires Indexed(vs) && (v as int) < KEY_COUNT
    ensures Indexed(vs + [v])
  {
  }

  /** `n` polls in a row: the state they leave, their replies in order, and how many read the control file. */
  datatype Trace = Trace(final: State, replies: seq<Reply>, fileReads: nat)

  function Run(s: State, n: nat): (r: Option<Trace>)
    requires Ready(s)
    ensures r.Some? ==> Ready(r.value.final) && |r.value.replies| == n && r.value.fileReads <= n
    ensures Mirrored(s) ==> r.Some? && Mirrored(r.value.final)
    decreases n
  {
    if n == 0 then Some(Trace(s, [], 0))
    else
      var p :- GetKey(s);
      var t :- Run(p.next, n - 1);
      Some(Trace(t.final, [p.reply] + t.replies, t.fileReads + if p.readControl then 1 else 0))
  }

  /** The first poll of a run, then the rest of it. */
  lemma RunStep(s: State, n: nat)
    requires Ready(s) && Mirrored(s) && 0 < n
    ensures GetKey(s).Some? && Run(s, n).Some? && Run(GetKey(s).value.next, n - 1).Some?
    ensures var p, t := GetKey(s).value, Run(GetKey(s).value.next, n - 1).value;
            Run(s, n).value == Trace(t.final, [p.reply] + t.replies, t.fileReads + if p.readControl then 1 else 0)
  {
  }

  predicate Odd(n: nat) {
    n % 2 == 1
  }

  /**
    The reply the `j`-th poll of a drain gives, counting from the newest
    entry of `b`: the control queued at position `|b| - 1 - j`, pressed when
    it started pressed or appears an odd number of times from that position
    on, but not both.
   */
  function Expected(before: seq<bool>, b: seq<byte>, j: nat): Reply
    requires |before| == KEY_COUNT && Indexed(b) && j < |b|
  {
    var i := |b| - 1 - j;
    var k := b[i];
    KeyEvent(before[k] != Odd(multiset(b[i..])[k]), KEYS[k].doomKey)
  }

  /** The replies are, newest first, the events for the controls queued in `b`. */
  predicate NewestFirst(replies: seq<Reply>, before: seq<bool>, b: seq<byte>)
    requires |before| == KEY_COUNT && Indexed(b)
  {
    && |replies| == |b|
    && forall j :: 0 <= j < |b| ==> replies[j] == Expected(before, b, j)
  }

  /** Each control ends pressed when it started pressed or was served an odd number of times in `b`, not both. */
  predicate Toggled(before: seq<bool>, after: seq<bool>, b: seq<byte>) {
    && |before| == KEY_COUNT && |after| == KEY_COUNT
    && forall k :: 0 <= k < KEY_COUNT ==> after[k] == (before[k] != Odd(multiset(b)[k as byte]))
  }

  /** Queuing `v` on top of `b` shifts the expected replies of `b` by one, as seen from the state before `v` is served. */
  lemma ExpectedShift(before: seq<bool>, b: seq<byte>, v: byte, j: nat)
    requires |before| == KEY_COUNT && Indexed(b) && (v as int) < KEY_COUNT && j < |b|
    ensures Indexed(b + [v])
    ensures Expected(before, b + [v], j + 1) == Expected(before[v as nat := !before[v as nat]], b, j)
  {
    var i := |b| - 1 - j;
    var k := b[i];
    assert (b + [v])[i] == k;
    assert (b + [v])[i..] == b[i..] + [v];
    assert multiset(b[i..] + [v]) == multiset(b[i..]) + multiset{v};
  }

  lemma NewestFirstStep(r: Reply, rs: seq<Reply>, before: seq<bool>, b: seq<byte>, v: byte)
    requires |before| == KEY_COUNT && Indexed(b) && (v as int) < KEY_COUNT
    requires NewestFirst(rs, before[v as nat := !before[v as nat]], b)
    requires r == KeyEvent(!before[v as nat], KEYS[v].doomKey)
    ensures Indexed(b + [v]) && NewestFirst([r] + rs, before, b + [v])
  {
    var b2 := b + [v];
    assert b2[|b2| - 1..] == [v];
    assert multiset([v])[v] == 1;
    forall j | 0 <= j < |b2|
      ensures ([r] + rs)[j] == Expected(before, b2, j)
    {
      if 0 < j {
        ExpectedShift(before, b, v, j - 1);
      }
    }
  }

  lemma ToggledStep(p0: seq<bool>, p2: seq<bool>, b: seq<byte>, v: byte)
    requires |p0| == KEY_COUNT && (v as int) < KEY_COUNT
    requires Toggled(p0[v as nat := !p0[v as nat]], p2, b)
    ensures Toggled(p0, p2, b + [v])
  {
    assert multiset(b + [v]) == multiset(b) + multiset{v};
    forall k | 0 <= k < KEY_COUNT
      ensures p2[k] == (p0[k] != Odd(multiset(b + [v])[k as byte]))
    {
      if k == v as nat {
        assert multiset(b + [v])[k as byte] == multiset(b)[k as byte] + 1;
      } else {
        assert multiset(b + [v])[k as byte] == multiset(b)[k as byte];
      }
    }
  }

  /**
    Draining a backlog of `n` indices takes `n` polls that never read the
    control file: they report the queued controls newest first, each as a
    key event, and leave each control pressed exactly when it started
    pressed or was served an odd number of times, but not both.
   */
  lemma {:induction false} Drain(s: State)
    requires Ready(s) && Mirrored(s)
    ensures Run(s, |s.backlog|).Some?
    ensures var t := Run(s, |s.backlog|).value;
            && t.fileReads == 0
            && t.final.backlog == []
            && t.final.control == s.control
            && NewestFirst(t.replies, s.pressed, s.backlog)
            && Toggled(s.pressed, t.final.pressed, s.backlog)
    decreases |s.backlog|
  {
    var b := s.backlog;
    var n := |b|;
    if n > 0 {
      ServeLast(s);
      var p := GetKey(s).value;
      var keyi := b[n - 1];
      var b' := p.next.backlog;
      assert b' + [keyi] == b;
      Drain(p.next);
      var t' := Run(p.next, n - 1).value;
      assert Run(s, n).value == Trace(t'.final, [p.reply] + t'.replies, t'.fileReads);
      NewestFirstStep(p.reply, t'.replies, s.pressed, b', keyi);
      ToggledStep(s.pressed, t'.final.pressed, b', keyi);
    } else {
      assert multiset(b) == multiset{};
    }
  }

  /**
    With nothing queued, the numbers in the control file are reported over
    the next `|vs|` polls, last number first, with the file read once and
    left empty; each control ends pressed according to how often it was
    listed.
   */
  lemma ReadOnceServeAll(s: State, vs: seq<byte>)
    requires Ready(s) && Mirrored(s) && |s.backlog| == 0
    requires Parse(s.control) == Some(vs) && |vs| > 0
    ensures Indexed(vs) && Run(s, |vs|).Some?
    ensures var t := Run(s, |vs|).value;
            && t.fileReads == 1
            && t.final.backlog == []
            && t.final.control == []
            && NewestFirst(t.replies, s.pressed, vs)
            && Toggled(s.pressed, t.final.pressed, vs)
  {
    var front, last := vs[..|vs| - 1], vs[|vs| - 1];
    assert front + [last] == vs;
    RunStep(s, |vs|);
    RefillServesLast(s, vs);
    var p := GetKey(s).value;
    assert p.next.backlog == front && p.next.control == [];
    Drain(p.next);
    var t := Run(p.next, |front|).value;
    assert t.fileReads == 0 && t.final.backlog == [] && t.final.control == [];
    NewestFirstStep(p.reply, t.replies, s.pressed, front, last);
    ToggledStep(s.pressed, t.final.pressed, front, last);
  }
}
