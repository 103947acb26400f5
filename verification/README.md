# Conference member model

A Dafny model of `AbstractConferenceMember`, the default implementation of
a participant ("member") of a multi-party call in the SIP Communicator
protocol service. A member is anchored to the call peer acting as the
conference focus, fixed at construction. It holds a user-friendly display
name that may be absent and the state of its device and signalling session,
which starts as `UNKNOWN`. Each setter fires a property-change notification,
carrying the property name, the old value and the new value, but only when
the new value differs from the current one.

The model is functional. `ConferenceMember.Member<P>` is an immutable record
`(focus, displayName, state, events)`; the focus peer's type `P` is a type
parameter, compared by equality only. `events` is the append-only log of
notifications the member has fired, standing in for the listener machinery
of `PropertyChangeNotifier`. Each setter is a pure function from the record
before the call to the record after it. The getters are the record's fields:
`focus` for `getConferenceFocusCallParticipant`, `displayName` for
`getDisplayName`, `state` for `getState`.

The display-name guard is modelled as the class writes it: the current name
is null and the new one is not, or the current name is not null and
`String.equals` (false for a null argument) says the two differ. Its
contract proves this is exactly "old ≠ new" over `Option<string>`, which
gives notify-iff-changed, idempotence and the frame properties. The state
guard compares by identity; enumeration constants are unique instances, so
identity is value equality on `MemberState`.

`MemberHistory` looks at any sequence of setter calls. It proves that the
focus peer is never reassigned and that the log only grows, by at most one
entry per call. It also proves that the log always accounts for both fields:
the display-name changes chain from absent to the current name, the state
changes chain from `UNKNOWN` to the current state, and no entry repeats its
old value as its new one.

Files: `options.dfy` (the `Option` datatype), `conference_member.dfy` (the
class), `member_history.dfy` (properties over runs of setter calls).

## Model

| member | source | states |
|---|---|---|
| ConferenceMember.NewMember | src/net/java/sip/communicator/service/protocol/AbstractConferenceMember.java:26-44 | a new member has the constructor's focus peer, an absent display name, state `UNKNOWN` and has fired nothing |
| ConferenceMember.DisplayNameGuard | src/net/java/sip/communicator/service/protocol/AbstractConferenceMember.java:81-83 | the null-aware `equals` test of `setDisplayName` holds exactly when the current and the new optional name differ |
| ConferenceMember.SetDisplayName | src/net/java/sip/communicator/service/protocol/AbstractConferenceMember.java:79-94 | afterwards the name is the argument; state and focus peer are untouched; one change (old name, new name) is appended when the name differs, otherwise the member is unchanged |
| ConferenceMember.SetState | src/net/java/sip/communicator/service/protocol/AbstractConferenceMember.java:106-116 | afterwards the state is the argument; name and focus peer are untouched; one change (old state, new state) is appended when the state differs, otherwise the member is unchanged |
| ConferenceMember.NotifyIffChanged | src/net/java/sip/communicator/service/protocol/AbstractConferenceMember.java:79-116 | each setter adds one log entry if the value changes and none otherwise |
| ConferenceMember.SetDisplayNameIdempotent | src/net/java/sip/communicator/service/protocol/AbstractConferenceMember.java:81-93 | setting the same name twice gives the same member as setting it once; the second call fires nothing |
| ConferenceMember.SetStateIdempotent | src/net/java/sip/communicator/service/protocol/AbstractConferenceMember.java:108-115 | setting the same state twice gives the same member as setting it once; the second call fires nothing |
| ConferenceMember.SuccessiveStatesFireInOrder | src/net/java/sip/communicator/service/protocol/AbstractConferenceMember.java:106-116 | two different states set in a row fire their changes in order, with matching old and new values |
| ConferenceMember.FiredChangeRecordsBeforeAndAfter | src/net/java/sip/communicator/service/protocol/AbstractConferenceMember.java:85-114 | a fired change carries the field's value before the call as old value and its value after the call as new value |
| MemberHistory.NewMemberConsistent | src/net/java/sip/communicator/service/protocol/AbstractConferenceMember.java:32-44 | a new member's empty log accounts for its initial name and state |
| MemberHistory.SetDisplayNamePreservesConsistent | src/net/java/sip/communicator/service/protocol/AbstractConferenceMember.java:79-94 | `setDisplayName` keeps the log accounting for the name and the state |
| MemberHistory.SetStatePreservesConsistent | src/net/java/sip/communicator/service/protocol/AbstractConferenceMember.java:106-116 | `setState` keeps the log accounting for the name and the state |
| MemberHistory.RunPreservesConsistent | src/net/java/sip/communicator/service/protocol/AbstractConferenceMember.java:79-116 | any sequence of setter calls keeps the log accounting for the name and the state |
| MemberHistory.HistoryFromConstruction | src/net/java/sip/communicator/service/protocol/AbstractConferenceMember.java:32-116 | after construction and any setter calls, the name changes chain from absent to the current name and the state changes from `UNKNOWN` to the current state, each a real change |
| MemberHistory.RunKeepsFocus | src/net/java/sip/communicator/service/protocol/AbstractConferenceMember.java:26-52 | no sequence of setter calls changes the focus peer |
| MemberHistory.RunExtendsLog | src/net/java/sip/communicator/service/protocol/AbstractConferenceMember.java:79-116 | setter calls keep every entry already fired as a prefix and add at most one entry per call |
| MemberHistory.ScenarioActiveThenAlice | src/net/java/sip/communicator/service/protocol/AbstractConferenceMember.java:40-116 | construct, set an active state, name "Alice" twice: the log holds exactly the state change and one name change from absent |

## Left out

- Listener registration, dispatch order and listener exceptions: `PropertyChangeNotifier` and `firePropertyChange` are not part of this model; firing a change is appending it to the member's log.
- The call peer's internals: the focus peer is an opaque type parameter.
- The members of `ConferenceMemberState` other than `UNKNOWN`, and the values of `DISPLAY_NAME_PROPERTY_NAME` and `STATE_PROPERTY_NAME`, are defined outside the class; the model names the other states by string and uses two distinct property tags.
- A null state: `setState` has no guard against a null argument, so Java would store null and fire a change to it. The model's state is never null, a modelling assumption rather than something the class enforces.
- A null focus peer passed to the constructor: stored unchecked by the class; the model's focus peer is any value of its type.
- String instance identity: when the names are equal the class keeps its own string instance; with value semantics this is indistinguishable from storing the argument.
- Concurrency: the class does no locking and the model is sequential.
