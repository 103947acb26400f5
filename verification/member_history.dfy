/**
 Properties of a conference member over any sequence of setter calls: the
 focus peer is never reassigned, the notification log only grows, and the
 log always tells the full story of both fields — the display-name changes
 chain from "absent" to the current name, the state changes chain from
 `UNKNOWN` to the current state, and every entry records a real change.
 */
module MemberHistory {
  import opened Options
  import opened ConferenceMember

  /** One call of a setter by the layer that owns the member. */
  datatype Operation = SetDisplayNameCall(name: Option<string>) | SetStateCall(state: MemberState)

  function Apply<P>(m: Member<P>, op: Operation): Member<P>
  {
    match op
    case SetDisplayNameCall(name) => SetDisplayName(m, name)
    case SetStateCall(state) => SetState(m, state)
  }

  /** The member after the calls `ops`, performed in order. */
  function Run<P>(m: Member<P>, ops: seq<Operation>): Member<P>
    decreases |ops|
  {
    if |ops| == 0 then m else Run(Apply(m, ops[0]), ops[1..])
  }

  /** The `(old, new)` pairs of the display-name changes in `log`, oldest first. */
  function NameTrail(log: seq<PropertyChange>): seq<(Option<string>, Option<string>)>
  {
    if |log| == 0 then []
    else
      var e := log[|log| - 1];
      NameTrail(log[..|log| - 1])
        + (if e.property == DisplayNameProperty && e.oldValue.NameValue? && e.newValue.NameValue?
           then [(e.oldValue.name, e.newValue.name)] else [])
  }

  /** The `(old, new)` pairs of the state changes in `log`, oldest first. */
  function StateTrail(log: seq<PropertyChange>): seq<(MemberState, MemberState)>
  {
    if |log| == 0 then []
    else
      var e := log[|log| - 1];
      StateTrail(log[..|log| - 1])
        + (if e.property == StateProperty && e.oldValue.StateValue? && e.newValue.StateValue?
           then [(e.oldValue.state, e.newValue.state)] else [])
  }

  /** The pairs of `trail` lead from `first` to `last`: the first old value is
      `first`, each new value is the next old value, the last new value is
      `last`, and no pair repeats its old value as its new one. */
  ghost predicate Chained<T>(first: T, trail: seq<(T, T)>, last: T)
  {
    && (|trail| == 0 ==> first == last)
    && (|trail| > 0 ==> trail[0].0 == first && trail[|trail| - 1].1 == last)
    && (forall i :: 0 <= i < |trail| ==> trail[i].0 != trail[i].1)
    && (forall i :: 0 <= i < |trail| - 1 ==> trail[i].1 == trail[i + 1].0)
  }

  /** An entry whose old and new values are of the kind its property names. */
  predicate WellKinded(e: PropertyChange)
  {
    match e.property
    case DisplayNameProperty => e.oldValue.NameValue? && e.newValue.NameValue?
    case StateProperty => e.oldValue.StateValue? && e.newValue.StateValue?
  }

  /** The log of `m` accounts for its current field values: every entry is
      well kinded, and the changes of each property chain from its value at
      construction to its current value. */
  ghost predicate Consistent<P>(m: Member<P>)
  {
    && (forall i :: 0 <= i < |m.events| ==> WellKinded(m.events[i]))
    && Chained(None, NameTrail(m.events), m.displayName)
    && Chained(Unknown, StateTrail(m.events), m.state)
  }

  /** Appending a real change from `last` extends a chain ending at `last`. */
  lemma ChainedExtend<T>(first: T, trail: seq<(T, T)>, last: T, next: T)
    requires Chained(first, trail, last)
    requires last != next
    ensures Chained(first, trail + [(last, next)], next)
  {
  }

  /** A freshly constructed member is consistent. */
  lemma NewMemberConsistent<P>(focus: P)
    ensures Consistent(NewMember(focus))
  {
  }

  /** `setDisplayName` keeps a member consistent: the new entry extends the
      display-name trail and leaves the state trail alone. */
  lemma SetDisplayNamePreservesConsistent<P>(m: Member<P>, name: Option<string>)
    requires Consistent(m)
    ensures Consistent(SetDisplayName(m, name))
  {
    var r := SetDisplayName(m, name);
    if m.displayName != name {
      var e := DisplayNameChange(m.displayName, name);
      assert r.events[..|r.events| - 1] == m.events;
      assert NameTrail(r.events) == NameTrail(m.events) + [(m.displayName, name)];
      assert StateTrail(r.events) == StateTrail(m.events);
      ChainedExtend(None, NameTrail(m.events), m.displayName, name);
      assert WellKinded(e);
    }
  }

  /** `setState` keeps a member consistent. */
  lemma SetStatePreservesConsistent<P>(m: Member<P>, state: MemberState)
    requires Consistent(m)
    ensures Consistent(SetState(m, state))
  {
  }

  /** Any sequence of setter calls keeps a member consistent. */
  lemma {:induction false} RunPreservesConsistent<P>(m: Member<P>, ops: seq<Operation>)
    requires Consistent(m)
    ensures Consistent(Run(m, ops))
    decreases |ops|
  {
    if |ops| > 0 {
      match ops[0] {
        case SetDisplayNameCall(name) => SetDisplayNamePreservesConsistent(m, name);
        case SetStateCall(state) => SetStatePreservesConsistent(m, state);
      }
      RunPreservesConsistent(Apply(m, ops[0]), ops[1..]);
    }
  }

  /** Whatever the owning layer does with a member, its log accounts for its
      current display name and state, starting from the values the
      constructor gave them. */
  lemma HistoryFromConstruction<P>(focus: P, ops: seq<Operation>)
    ensures var m := Run(NewMember(focus), ops);
      && Chained(None, NameTrail(m.events), m.displayName)
      && Chained(Unknown, StateTrail(m.events), m.state)
  {
    NewMemberConsistent(focus);
    RunPreservesConsistent(NewMember(focus), ops);
  }

  /** The focus peer is never reassigned: after any sequence of setter calls
      the member still has the focus peer it was constructed with. */
  lemma {:induction false} RunKeepsFocus<P>(m: Member<P>, ops: seq<Operation>)
    ensures Run(m, ops).focus == m.focus
    decreases |ops|
  {
    if |ops| > 0 {
      RunKeepsFocus(Apply(m, ops[0]), ops[1..]);
    }
  }

  /** The log is append-only: the calls `ops` keep every entry already fired
      and add at most one entry per call. */
  lemma {:induction false} RunExtendsLog<P>(m: Member<P>, ops: seq<Operation>)
    ensures m.events <= Run(m, ops).events
    ensures |Run(m, ops).events| <= |m.events| + |ops|
    decreases |ops|
  {
    if |ops| > 0 {
      RunExtendsLog(Apply(m, ops[0]), ops[1..]);
    }
  }

  /** The walk-through of a member's life: constructed with focus `p`, moved
      from `UNKNOWN` to `active`, named "Alice" (firing from absent to
      "Alice"), then named "Alice" again, which fires nothing. */
  lemma ScenarioActiveThenAlice<P>(p: P, active: MemberState)
    requires active != Unknown
    ensures var m := Run(NewMember(p), [SetStateCall(active), SetDisplayNameCall(Some("Alice")), SetDisplayNameCall(Some("Alice"))]);
      && m.focus == p
      && m.state == active
      && m.displayName == Some("Alice")
      && m.events == [StateChange(Unknown, active), DisplayNameChange(None, Some("Alice"))]
  {
    var m0 := NewMember(p);
    var m1 := SetState(m0, active);
    var m2 := SetDisplayName(m1, Some("Alice"));
    var m3 := SetDisplayName(m2, Some("Alice"));
    var ops := [SetStateCall(active), SetDisplayNameCall(Some("Alice")), SetDisplayNameCall(Some("Alice"))];
    assert Run(m2, ops[2..]) == Run(m3, []) == m3;
    assert Run(m1, ops[1..]) == Run(m2, ops[1..][1..]) by { assert ops[1..][1..] == ops[2..]; }
    assert Run(m0, ops) == Run(m1, ops[1..]);
  }
}
