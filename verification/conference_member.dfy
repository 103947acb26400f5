/**
 A model of `AbstractConferenceMember`: one participant of a multi-party call,
 anchored to the call peer that acts as the conference focus, carrying a
 display name that may be absent and the state of its device and signalling
 session.

 The object is a value here. Each setter is a pure function from the record
 before the call to the record after it. The change notifications the class
 inherits from `PropertyChangeNotifier` are an append-only log of
 `(property, old value, new value)` entries kept inside the record; listener
 registration and dispatch are not modelled.
 */
module ConferenceMember {
  import opened Options

  /** The state of a member's device and signalling session. Only `UNKNOWN`
      is named by the class itself; the other members of the enumeration are
      defined elsewhere and are told apart by name. */
  datatype MemberState = Unknown | Named(name: string)

  /** The two property names a member fires changes for. */
  datatype PropertyName = DisplayNameProperty | StateProperty

  /** The old and new values a change carries (`Object` in Java). */
  datatype PropertyValue = NameValue(name: Option<string>) | StateValue(state: MemberState)

  /** One change notification: the property, its value before and after. */
  datatype PropertyChange = PropertyChange(property: PropertyName, oldValue: PropertyValue, newValue: PropertyValue)

  /** A conference member whose focus peer has type `P`. The fields are what
      the getters return: `focus` for `getConferenceFocusCallParticipant`,
      `displayName` for `getDisplayName`, `state` for `getState`. `events`
      is every notification fired so far, oldest first. */
  datatype Member<P> = Member(focus: P, displayName: Option<string>, state: MemberState, events: seq<PropertyChange>)

  /** The change notification `setDisplayName` fires. */
  function DisplayNameChange(oldName: Option<string>, newName: Option<string>): PropertyChange
  {
    PropertyChange(DisplayNameProperty, NameValue(oldName), NameValue(newName))
  }

  /** The change notification `setState` fires. */
  function StateChange(oldState: MemberState, newState: MemberState): PropertyChange
  {
    PropertyChange(StateProperty, StateValue(oldState), StateValue(newState))
  }

  /** The constructor: the focus peer is the argument, the display name is
      absent, the state is `UNKNOWN`, and nothing has been fired yet. */
  function NewMember<P>(focus: P): (m: Member<P>)
    ensures m.focus == focus
    ensures m.displayName == None
    ensures m.state == Unknown
    ensures m.events == []
  {
    Member(focus, None, Unknown, [])
  }

  /** Java's `String.equals` with an argument that may be null: a null
      argument is never equal to a string. */
  predicate StringEquals(s: string, other: Option<string>)
  {
    other.Some? && other.value == s
  }

  /** The condition `setDisplayName` tests before it assigns and fires, as
      the class writes it: the current name is null and the new one is not,
      or the current name is not null and does not equal the new one. It
      holds exactly when the two optional names differ. */
  function DisplayNameGuard(current: Option<string>, next: Option<string>): (fires: bool)
    ensures fires <==> current != next
  {
    || (current.None? && next.Some?)
    || (current.Some? && !StringEquals(current.value, next))
  }

  /** `setDisplayName`: when the guard holds, the name is replaced and one
      display-name change from the old to the new name is fired; otherwise
      nothing happens. Either way the name afterwards is the argument. */
  function SetDisplayName<P>(m: Member<P>, name: Option<string>): (r: Member<P>)
    ensures r.displayName == name
    ensures r.focus == m.focus && r.state == m.state
    ensures m.displayName != name ==> r.events == m.events + [DisplayNameChange(m.displayName, name)]
    ensures m.displayName == name ==> r == m
  {
    if DisplayNameGuard(m.displayName, name) then
      var oldValue := m.displayName;
      m.(displayName := name, events := m.events + [DisplayNameChange(oldValue, name)])
    else
      m
  }

  /** `setState`: when the new state differs from the current one, the state
      is replaced and one state change from the old to the new state is
      fired; otherwise nothing happens. */
  function SetState<P>(m: Member<P>, state: MemberState): (r: Member<P>)
    ensures r.state == state
    ensures r.focus == m.focus && r.displayName == m.displayName
    ensures m.state != state ==> r.events == m.events + [StateChange(m.state, state)]
    ensures m.state == state ==> r == m
  {
    if m.state != state then
      var oldValue := m.state;
      m.(state := state, events := m.events + [StateChange(oldValue, state)])
    else
      m
  }

  /** A setter fires exactly when the value it is given differs from the
      current one: one new entry if so, none otherwise. */
  lemma NotifyIffChanged<P>(m: Member<P>, name: Option<string>, state: MemberState)
    ensures |SetDisplayName(m, name).events| == |m.events| + (if m.displayName != name then 1 else 0)
    ensures |SetState(m, state).events| == |m.events| + (if m.state != state then 1 else 0)
  {
  }

  /** Setting the same display name twice is the same as setting it once;
      the second call fires nothing. */
  lemma SetDisplayNameIdempotent<P>(m: Member<P>, name: Option<string>)
    ensures SetDisplayName(SetDisplayName(m, name), name) == SetDisplayName(m, name)
    ensures SetDisplayName(SetDisplayName(m, name), name).events == SetDisplayName(m, name).events
  {
  }

  /** Setting the same state twice is the same as setting it once; the second
      call fires nothing. */
  lemma SetStateIdempotent<P>(m: Member<P>, state: MemberState)
    ensures SetState(SetState(m, state), state) == SetState(m, state)
    ensures SetState(SetState(m, state), state).events == SetState(m, state).events
  {
  }

  /** Two calls of `setState` with different states fire, in order, the
      change into the first state (unless the member was already in it) and
      then the change from the first state into the second. */
  lemma SuccessiveStatesFireInOrder<P>(m: Member<P>, first: MemberState, second: MemberState)
    requires first != second
    ensures SetState(SetState(m, first), second).events
      == m.events + (if m.state != first then [StateChange(m.state, first)] else []) + [StateChange(first, second)]
  {
  }

  /** Every entry a setter fires carries the field's value before the call as
      its old value and the field's value after the call as its new value. */
  lemma FiredChangeRecordsBeforeAndAfter<P>(m: Member<P>, name: Option<string>, state: MemberState)
    ensures var r := SetDisplayName(m, name);
      |r.events| > |m.events| ==>
        r.events[|r.events| - 1] == PropertyChange(DisplayNameProperty, NameValue(m.displayName), NameValue(r.displayName))
    ensures var r := SetState(m, state);
      |r.events| > |m.events| ==>
        r.events[|r.events| - 1] == PropertyChange(StateProperty, StateValue(m.state), StateValue(r.state))
  {
  }
}
