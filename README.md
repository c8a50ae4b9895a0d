# Duin engine core, modelled in Dafny

This project models the parts of the Duin game engine that hold data and make decisions. It also models two of the repository's Python helper scripts. Each part is a Dafny module:

- `Json`: RapidJSON-backed JSON values as the engine accesses them. Covers member lookup, typed getters with their defaults, adding and removing members, pushing onto arrays, and indexing. The `JsonValue` class is the mutable handle.
- `Scene`: the scene serialiser (`PackedScene`, `PackedEntity`, `PackedComponent`, `PackedExternalDependency`, `PackedSceneMetadata`) to and from JSON trees, with the round-trip lemmas.
- `Uuid`: the 64-bit identifier and its hexadecimal text form.
- `ObjectStates`: the object-based game state machine. It is a stack of states that are also children of the machine's game object; it pauses on push, exits and unpauses on pop, and switches and flushes.
- `CallbackStates`: the simpler state machine over states made of optional callbacks.
- `CStateMachine`: the C registry state machine, with fixed capacity, truncated names, switch by name or pointer, switch-to-previous and the execute functions.
- `GameObjects`: the object hierarchy. Children are deduplicated by identifier, each object has a parent link, and the lifecycle hooks run in post-order.
- `Signals`: a signal's callback vector and its identifier-to-index map. Covers connect, swap-with-last disconnect, emit and the cleanup of empty callbacks.
- `KeyInput`: current and previous key state, and the classification of keyboard events.
- `InputActions`: the action table, with bindings deduplicated by hash.
- `HitReports`: the capped, double-buffered character-controller hit reports.
- `QuadTrees`: the quad tree's insert, split, quadrant choice, query and remove.
  - Proofs are over a value tree (`Tree`).
  - The `QuadTree` class keeps the source's in-place form and is proved to agree with the value tree.
- `ComponentRegistry`: the component serializer registry: registration, alias resolution and the unqualified-name extraction.
- `Filesystem`: file name and extension extraction, the invalid-path sentinel, separator normalisation and virtual-path mapping.
- `Branches` (`create_branch.py`): slugify, the next branch number and the branch name.
- `Coverage` (`process_testcoverage.py`): type-name shortening, function-name formatting, grouping and sorting.
- `Seqs` and `Wrappers` are shared helpers: `Option`, reversal, and swap-with-last removal.

## How the model is built

- Callbacks, signals and overridable hooks are not executed. Each invocation is appended to a log or trace, so the contracts can say which callbacks run, on which object and in which order.
- Code that mutates in place is written as classes with fields and `modifies` clauses:
  - the state machines;
  - game objects;
  - Signal;
  - Input (arrays of key states);
  - the hit-report buffers;
  - the action table;
  - the quad tree;
  - the component registry.
- Loops in the source are methods with loop invariants. Examples are the duplicate scans, the signal emission, the flush loops and the branch-number scan.
- Pure code is written as functions with lemmas: the serialiser, the JSON accessors, the path utilities and the Python helpers.

## Model

| member | source | states |
|---|---|---|
| Json.JsonValue.constructor | Duin/src/Duin/IO/JSONValue.cpp:155-160 | a default-constructed value is the empty object |
| Json.HasMember | Duin/src/Duin/IO/JSONValue.cpp:273-293 | true exactly when the value is an object holding a member with that key; false on every non-object |
| Json.GetMember | Duin/src/Duin/IO/JSONValue.cpp:300-319 | a missing key or a non-object gives the empty object; otherwise a proper part of the value |
| Json.GetMemberFirst | Duin/src/Duin/IO/JSONValue.cpp:300-319 | the member returned is the first member with that key |
| Json.GetMemberAt | Duin/src/Duin/IO/JSONValue.cpp:885-904 | a member with no earlier member of the same key is found and returned by key lookup |
| Json.FindIndex | Duin/src/Duin/IO/JSONValue.cpp:300-319 | the first position holding the key; None exactly when no member has the key |
| Json.GetString | Duin/src/Duin/IO/JSONValue.cpp:424-441 | the string of a string value, "" on any other value |
| Json.GetBool | Duin/src/Duin/IO/JSONValue.cpp:462-478 | true exactly for the boolean true; false on a type mismatch |
| Json.GetInt | Duin/src/Duin/IO/JSONValue.cpp:514-530 | the integer of a value in the signed 32-bit range, 0 otherwise; the result is always 32-bit |
| Json.GetDouble | Duin/src/Duin/IO/JSONValue.cpp:551-567 | the double of a double value, the zero double otherwise |
| Json.JsonValue.AddMember | Duin/src/Duin/IO/JSONValue.h:465-503 | the new value is the old one with the member added (WithMember) |
| Json.WithMember | Duin/src/Duin/IO/JSONValue.cpp:328-349 | a no-op on a non-object; on an object the new member comes last |
| Json.WithMemberReplaces | Duin/src/Duin/IO/JSONValue.cpp:328-349 | without duplicates allowed, the key then occurs exactly once and lookup gives the new value |
| Json.WithNewMember | Duin/src/Duin/IO/JSONValue.cpp:328-349 | a key not yet present is simply appended |
| Json.JsonValue.RemoveMember | Duin/src/Duin/IO/JSONValue.cpp:356-364 | the new value is the old one without the member (WithoutMember) |
| Json.WithoutMember | Duin/src/Duin/IO/JSONValue.cpp:356-364 | an absent key or a non-object is a no-op; otherwise exactly one member fewer |
| Json.WithoutMemberMultiset | Duin/src/Duin/IO/JSONValue.cpp:356-364 | the removed member is the one lookup returned; every other member stays |
| Json.WithoutMemberCounts | Duin/src/Duin/IO/JSONValue.cpp:356-364 | one occurrence of the key goes away; other keys keep their counts |
| Json.WithoutUniqueMember | Duin/src/Duin/IO/JSONValue.cpp:356-364 | removing a key that occurs once leaves it absent |
| Json.KeyCountSwapRemove | Duin/src/Duin/IO/JSONValue.cpp:356-364 | swap-with-last removal of a member lowers only that member's key count, by one |
| Json.JsonValue.PushBack | Duin/src/Duin/IO/JSONValue.h:511-521 | the new value is the old one with the element pushed (PushedBack) |
| Json.PushedBack | Duin/src/Duin/IO/JSONValue.cpp:866-878 | a no-op on a non-array; on an array the old items are kept and the new one is last |
| Json.Index | Duin/src/Duin/IO/JSONValue.cpp:911-929 | a non-array gives the empty object; an array gives its item at the index |
| Json.Parse | Duin/src/Duin/IO/JSONValue.cpp:55-70 | malformed text gives the empty object |
| Json.Write | Duin/src/Duin/IO/JSONValue.cpp:116-137 | the whole value is written exactly when every double in it is finite; otherwise the default writer stops and the text is cut off |
| Json.ParseWrite | Duin/src/Duin/IO/JSONValue.cpp:55-70 | parsing written text gives back the value when its doubles are finite, and the empty object otherwise |
| Json.NanIsCutOff | Duin/src/Duin/IO/JSONValue.cpp:116-137 | an object holding a NaN is not writable and reads back as the empty object |
| Json.WrittenObject | Duin/src/Duin/IO/JSONValue.cpp:328-349 | adding members with distinct keys to an empty object builds exactly that object, and each key reads back its value |
| Json.WithFreshMembers | Duin/src/Duin/IO/JSONValue.cpp:328-349 | adding distinct fresh members appends them in order |
| Json.GetDistinctMember | Duin/src/Duin/IO/JSONValue.cpp:300-319 | in an object with distinct keys, every member is found by its key |
| Json.KeyCountPositive | Duin/src/Duin/IO/JSONValue.cpp:273-293 | a key's count is positive exactly when some member has the key |
| Json.JsonValue.SetObject | Duin/src/Duin/IO/JSONValue.cpp:801-805 | the value becomes the empty object |
| Json.JsonValue.SetArray | Duin/src/Duin/IO/JSONValue.cpp:855-859 | the value becomes the empty array |
| Json.JsonValue.SetInt | Duin/src/Duin/IO/JSONValue.cpp:812-816 | the value becomes the integer and GetInt reads it back |
| Json.JsonValue.SetString | Duin/src/Duin/IO/JSONValue.cpp:823-827 | the value becomes the string and GetString reads it back |
| Json.JsonValue.SetDouble | Duin/src/Duin/IO/JSONValue.cpp:834-838 | the value becomes the double and GetDouble reads it back |
| Json.JsonValue.SetBool | Duin/src/Duin/IO/JSONValue.cpp:845-849 | the value becomes the boolean and GetBool reads it back |
| Scene.StringMember | Duin/src/Duin/Scene/SceneBuilder.cpp:70-73 | the string member when present and a string, "" otherwise |
| Scene.UuidMember | Duin/src/Duin/Scene/SceneBuilder.cpp:65-68 | a missing identifier member leaves the default identifier |
| Scene.DeserializeComponent | Duin/src/Duin/Scene/SceneBuilder.cpp:44-51 | the type name is the string member "type" ("" when missing or not a string); the data is the written form of the whole object, or cut-off text when a double in it is not finite |
| Scene.SerializeComponent | Duin/src/Duin/Scene/SceneBuilder.cpp:53-58 | malformed component data becomes {} |
| Scene.ComponentValueRoundTrip | Duin/src/Duin/Scene/SceneBuilder.cpp:44-58 | serialising a deserialised component gives back the JSON object when its doubles are finite, and the empty object otherwise |
| Scene.ComponentRoundTrip | Duin/src/Duin/Scene/SceneBuilder.cpp:44-58 | a component survives serialise-then-deserialise exactly when its data is fully written JSON, with finite doubles, whose "type" member is its type name |
| Scene.EntityMembers | Duin/src/Duin/Scene/SceneBuilder.cpp:127-164 | an entity is written as exactly six members |
| Scene.SerializeEntityShape | Duin/src/Duin/Scene/SceneBuilder.cpp:127-164 | the written entity is the object of those six members, each found by its key |
| Scene.EntityKeysDistinct | Duin/src/Duin/Scene/SceneBuilder.cpp:127-164 | the six keys are distinct |
| Scene.ReadEntityParts | Duin/src/Duin/Scene/SceneBuilder.cpp:127-164 | the written entity holds the hex identifier, name, enabled flag, the tags in order, the children in order and the components |
| Scene.DeserializeEntity | Duin/src/Duin/Scene/SceneBuilder.cpp:61-125 | every missing member leaves its field at the default; the identifier keeps its random default and enabled is false |
| Scene.ComponentsRoundTrip | Duin/src/Duin/Scene/SceneBuilder.cpp:106-122 | a list of normal components is read back in order |
| Scene.EntityRoundTrip | Duin/src/Duin/Scene/SceneBuilder.cpp:61-164 | deserialising a serialised entity gives it back, children recursively and in order |
| Scene.EntitiesRoundTrip | Duin/src/Duin/Scene/SceneBuilder.cpp:92-104 | a list of entities is read back in order |
| Scene.DeserializeDependency | Duin/src/Duin/Scene/SceneBuilder.cpp:167-182 | missing members leave the default identifier and "" |
| Scene.DependencyRoundTrip | Duin/src/Duin/Scene/SceneBuilder.cpp:167-193 | a dependency is written as its hex identifier and type and is read back unchanged |
| Scene.DependenciesRoundTrip | Duin/src/Duin/Scene/SceneBuilder.cpp:237-313 | the dependency list is read back in order |
| Scene.DeserializeMetadata | Duin/src/Duin/Scene/SceneBuilder.cpp:196-221 | each missing metadata field is "" |
| Scene.MetadataRoundTrip | Duin/src/Duin/Scene/SceneBuilder.cpp:196-234 | all four fields are always written, and deserialising the result gives the metadata back |
| Scene.MetadataKeysDistinct | Duin/src/Duin/Scene/SceneBuilder.cpp:223-234 | the four metadata keys are distinct |
| Scene.SceneMembers | Duin/src/Duin/Scene/SceneBuilder.cpp:287-313 | a scene is written as exactly five members |
| Scene.SerializeSceneShape | Duin/src/Duin/Scene/SceneBuilder.cpp:287-313 | the written scene is the object of sceneUUID, sceneName, metadata, externalDependencies and entities, each found by its key |
| Scene.SceneKeysDistinct | Duin/src/Duin/Scene/SceneBuilder.cpp:287-313 | the five scene keys are distinct |
| Scene.ReadSceneParts | Duin/src/Duin/Scene/SceneBuilder.cpp:287-313 | each scene member holds the field it is named for, with both arrays in list order |
| Scene.DeserializeScene | Duin/src/Duin/Scene/SceneBuilder.cpp:237-285 | each missing key leaves its field at the empty default |
| Scene.SceneRoundTrip | Duin/src/Duin/Scene/SceneBuilder.cpp:237-313 | a scene whose components are all normal survives serialise-then-deserialise |
| Uuid.HexRoundTrip | DuinTests/src/Core/Utils/TestUUID.cpp:226-247 | parsing an identifier's hex form gives the identifier back |
| Uuid.ToStringHexInjective | DuinTests/src/Core/Utils/TestUUID.cpp:226-247 | distinct identifiers have distinct hex forms |
| Uuid.ParseHexDigits | DuinTests/src/Core/Utils/TestUUID.cpp:226-247 | the digits written for a number parse back to it |
| Uuid.HexDigits | DuinTests/src/Core/Utils/TestUUID.cpp:226-247 | at least one digit, and no leading zero for a non-zero number |
| Uuid.ToStringHex | DuinTests/src/Core/Utils/TestUUID.cpp:226-247 | the text form is "0x" followed by at least one digit |
| ObjectStates.GameState.constructor | Duin/src/Duin/Objects/GameStateMachine.cpp:6-9 | a new state belongs to its machine, is disabled and owns a fresh game object |
| ObjectStates.GameState.StateEnter | Duin/src/Duin/Objects/GameStateMachine.cpp:11-15 | records the Enter callback and then its signal |
| ObjectStates.GameState.StateExit | Duin/src/Duin/Objects/GameStateMachine.cpp:62-66 | records the Exit callback and then its signal |
| ObjectStates.GameState.StateSetPause | Duin/src/Duin/Objects/GameStateMachine.cpp:68-72 | disables the state and records the Pause callback |
| ObjectStates.GameState.StateSetUnpause | Duin/src/Duin/Objects/GameStateMachine.cpp:74-78 | enables the state and records the Unpause callback |
| ObjectStates.GameState.StateHook | Duin/src/Duin/Objects/GameStateMachine.cpp:17-60 | a per-frame callback records the callback and then its signal |
| ObjectStates.GameState.PopState | Duin/src/Duin/Objects/GameStateMachine.cpp:80-83 | forwards to the owning machine's PopState, with all its effects: stack, log, the top's object removed from the children with its parent cleared, the state beneath enabled, and the stack kept inside the children |
| ObjectStates.GameState.FlushStack | Duin/src/Duin/Objects/GameStateMachine.cpp:85-88 | forwards to the owning machine's FlushStack, with all its effects: empty stack, log, every stacked object removed from the children with its parent cleared |
| ObjectStates.GameStateMachine.constructor | Duin/src/Duin/Objects/GameStateMachine.h:230 | a new machine has an empty stack and a childless game object |
| ObjectStates.GameStateMachine.GetActiveState | Duin/src/Duin/Objects/GameStateMachine.h:65-78 | non-null exactly when the stack is non-empty and the top is of the requested kind, and then it is the top |
| ObjectStates.GameStateMachine.CreateState | Duin/src/Duin/Objects/GameStateMachine.h:51-58 | a fresh disabled state, not on the stack, whose object is appended to the machine's children (unless its identifier is already a child's) |
| ObjectStates.GameStateMachine.PopState | Duin/src/Duin/Objects/GameStateMachine.cpp:224-244 | empty stack: no-op. Otherwise: Exit callback and signal of the top; top removed from its parent's children with its parent cleared; popped; state beneath unpaused and enabled; stack stays inside the children |
| ObjectStates.GameStateMachine.FlushStack | Duin/src/Duin/Objects/GameStateMachine.cpp:246-257 | the stack ends empty (and so inside the children), the log gains the pops from top to bottom, the children lose exactly the stacked states' objects, and each of those has its parent cleared |
| ObjectStates.WithoutAllMembers | Duin/src/Duin/Objects/GameStateMachine.cpp:246-257 | after a flush, an object is a child exactly when it was a child and was not the object of a stacked state |
| ObjectStates.GameStateMachine.PushState | Duin/src/Duin/Objects/GameStateMachine.h:177-210 | pauses the old top, pushes the new state disabled and enters it once; the states below are untouched |
| ObjectStates.GameStateMachine.SwitchState | Duin/src/Duin/Objects/GameStateMachine.h:106-124 | pops the top (if any): its object leaves the children with its parent cleared and the state beneath is enabled; then the new state is pushed disabled and entered. A new state that is a child of the machine and not yet stacked keeps the stack inside the children |
| ObjectStates.GameStateMachine.FlushAndSwitchState | Duin/src/Duin/Objects/GameStateMachine.h:152-170 | every previous state is popped top to bottom, the children lose exactly their objects, whose parents are cleared, and then exactly the new state is left, entered; a new state that is a child and was not stacked keeps the stack inside the children |
| ObjectStates.GameStateMachine.PushNewState | Duin/src/Duin/Objects/GameStateMachine.h:177-210 | the old top is paused; the created state's object joins the children with its parent set and Init journalled, unless a child already carries its identifier, in which case children, parent and journal are left alone; then the state is pushed disabled and entered |
| ObjectStates.GameStateMachine.SwitchNewState | Duin/src/Duin/Objects/GameStateMachine.h:85-104 | after the pop, a fresh state is created: its object is appended to the remaining children (and its Init recorded) unless one of them carries its identifier; it is pushed and entered, and when it was added the stack stays inside the children |
| ObjectStates.GameStateMachine.FlushAndSwitchNewState | Duin/src/Duin/Objects/GameStateMachine.h:131-150 | after the flush (every stacked object removed, parents cleared), a fresh state is created: its object is appended to the remaining children unless one of them carries its identifier; then it alone is on the stack, entered, inside the children when it was added |
| ObjectStates.GameStateMachine.Dispatch | Duin/src/Duin/Objects/GameStateMachine.cpp:272-340 | a per-frame call reaches only the top state, and nothing on an empty stack |
| ObjectStates.GameStateMachine.OnEvent | Duin/src/Duin/Objects/GameStateMachine.cpp:272-284 | reaches only the top state |
| ObjectStates.GameStateMachine.Update | Duin/src/Duin/Objects/GameStateMachine.cpp:286-298 | reaches only the top state |
| ObjectStates.GameStateMachine.PhysicsUpdate | Duin/src/Duin/Objects/GameStateMachine.cpp:300-312 | reaches only the top state |
| ObjectStates.GameStateMachine.Draw | Duin/src/Duin/Objects/GameStateMachine.cpp:314-326 | reaches only the top state |
| ObjectStates.GameStateMachine.DrawUI | Duin/src/Duin/Objects/GameStateMachine.cpp:328-340 | reaches only the top state |
| ObjectStates.PopExitsTop | Duin/src/Duin/Objects/GameStateMachine.cpp:224-244 | a pop exits exactly the top state |
| ObjectStates.FlushExitsTopToBottom | Duin/src/Duin/Objects/GameStateMachine.cpp:246-257 | a flush exits the states from top to bottom |
| ObjectStates.FlushExitsOnce | Duin/src/Duin/Objects/GameStateMachine.cpp:246-257 | on a stack of distinct states, each state is exited exactly once and no other state is |
| ObjectStates.PushEntersOnce | Duin/src/Duin/Objects/GameStateMachine.h:177-210 | a push enters exactly the new state, once |
| ObjectStates.SwitchExitsThenEnters | Duin/src/Duin/Objects/GameStateMachine.h:85-124 | a switch exits the old top and then enters the new state |
| ObjectStates.FlushSwitchExitsThenEnters | Duin/src/Duin/Objects/GameStateMachine.h:131-170 | a flush-and-switch exits every old state top to bottom and then enters the new one |
| ObjectStates.DispatchReachesTopOnly | Duin/src/Duin/Objects/GameStateMachine.cpp:272-340 | a dispatch records at most the top state's callback and signal |
| CallbackStates.GameStateMachine.constructor | Duin/src/Duin/Core/Utils/GameStateMachine.cpp:20-21 | a new machine has an empty stack |
| CallbackStates.GameStateMachine.PopState | Duin/src/Duin/Core/Utils/GameStateMachine.cpp:27-36 | empty stack: no-op. Otherwise the top's Exit runs if set, and the stack loses its top |
| CallbackStates.GameStateMachine.FlushStack | Duin/src/Duin/Core/Utils/GameStateMachine.cpp:38-45 | the stack ends empty and every set Exit runs, top to bottom |
| CallbackStates.GameStateMachine.PushState | Duin/src/Duin/Core/Utils/GameStateMachine.h:99-108 | the new state goes on top and only its Enter runs, if set; nothing below is paused or exited |
| CallbackStates.GameStateMachine.SwitchState | Duin/src/Duin/Core/Utils/GameStateMachine.h:61-78 | the old top exits (if set) and is replaced; the size is unchanged, or 1 from empty |
| CallbackStates.GameStateMachine.FlushAndSwitchState | Duin/src/Duin/Core/Utils/GameStateMachine.h:80-97 | exactly the new state is left, after every set Exit ran top to bottom |
| CallbackStates.GameStateMachine.Execute | Duin/src/Duin/Core/Utils/GameStateMachine.cpp:47-95 | the stack is unchanged and only the top state's callback runs, if the stack is non-empty and the callback is set |
| CallbackStates.GameStateMachine.ExecuteHandleInput | Duin/src/Duin/Core/Utils/GameStateMachine.cpp:47-55 | only the top's HandleInput, if set |
| CallbackStates.GameStateMachine.ExecuteUpdate | Duin/src/Duin/Core/Utils/GameStateMachine.cpp:57-65 | only the top's Update with the given delta, if set |
| CallbackStates.GameStateMachine.ExecutePhysicsUpdate | Duin/src/Duin/Core/Utils/GameStateMachine.cpp:67-75 | only the top's PhysicsUpdate with the given delta, if set |
| CallbackStates.GameStateMachine.ExecuteDraw | Duin/src/Duin/Core/Utils/GameStateMachine.cpp:77-85 | only the top's Draw, if set |
| CallbackStates.GameStateMachine.ExecuteDrawUI | Duin/src/Duin/Core/Utils/GameStateMachine.cpp:87-95 | only the top's DrawUI, if set |
| CallbackStates.RunInvokes | Duin/src/Duin/Core/Utils/GameStateMachine.h:99-108 | running a hook invokes the state exactly when that callback is set |
| CallbackStates.InvokedAppend | Duin/src/Duin/Core/Utils/GameStateMachine.cpp:38-45 | the invoked states of two traces concatenate |
| CallbackStates.PopExitsTop | Duin/src/Duin/Core/Utils/GameStateMachine.cpp:27-36 | a pop invokes only the top's Exit, and only if set |
| CallbackStates.FlushExitsTopToBottom | Duin/src/Duin/Core/Utils/GameStateMachine.cpp:38-45 | a flush invokes the set Exit callbacks from top to bottom |
| CallbackStates.FlushExitsOnce | Duin/src/Duin/Core/Utils/GameStateMachine.cpp:38-45 | on distinct states, each state with an Exit is exited exactly once |
| CallbackStates.WithSlotCount | Duin/src/Duin/Core/Utils/GameStateMachine.cpp:38-45 | among distinct states, each state with a callback occurs once in the selection |
| CallbackStates.DispatchReachesTopOnly | Duin/src/Duin/Core/Utils/GameStateMachine.cpp:47-95 | a dispatch makes at most one call, to the top, exactly when its callback is set |
| CallbackStates.SwitchExitsThenEnters | Duin/src/Duin/Core/Utils/GameStateMachine.h:61-78 | a switch exits the old top (if set) and then enters the new state (if set) |
| CStateMachine.Code | Duin/src/Duin/C_Modules/statemachine.h:12-15 | the error codes are 0, 1 and 2, and 0 means success |
| CStateMachine.Truncate | Duin/src/Duin/C_Modules/statemachine.c:20-21 | a stored name has at most SM_NAME_LENGTH-1 characters; it is a prefix of the argument, and the argument itself when shorter |
| CStateMachine.TruncateIdempotent | Duin/src/Duin/C_Modules/statemachine.c:20-21 | truncating a stored name changes nothing |
| CStateMachine.TruncateEqual | Duin/src/Duin/C_Modules/statemachine.c:20-21 | two names are stored alike exactly when both are long and share the first 49 characters, or they are equal and short |
| CStateMachine.SmState.constructor | Duin/src/Duin/C_Modules/statemachine.h:17-26 | a state carries its set of non-null callbacks and an empty name |
| CStateMachine.SmMachine.constructor | Duin/src/Duin/C_Modules/statemachine.h:9 | a machine has room for SM_MAX_STATES entries and none registered |
| CStateMachine.SmMachine.Create | Duin/src/Duin/C_Modules/statemachine.c:26-33 | current and previous are null, the count is 0 and the name is stored truncated |
| CStateMachine.SmMachine.RegisterState | Duin/src/Duin/C_Modules/statemachine.c:3-24 | refused with no change when full or when a stored (truncated) name equals the raw argument; otherwise the state is appended at index count under its truncated name |
| CStateMachine.RegisterBound | Duin/src/Duin/C_Modules/statemachine.c:5-9 | at most SM_MAX_STATES-1 = 255 states can be registered |
| CStateMachine.Lookup | Duin/src/Duin/C_Modules/statemachine.c:35-48 | the first index whose stored (truncated) name equals the raw argument; None exactly when no stored name equals it |
| CStateMachine.LookupTruncated | Duin/src/Duin/C_Modules/statemachine.c:20-21 | the corrected lookup: the first index whose stored name is the truncated argument; None exactly when no such name is stored |
| CStateMachine.TruncatedKeepsNamesDistinct | Duin/src/Duin/C_Modules/statemachine.c:11-23 | with the truncated comparison, registration keeps the stored names distinct |
| CStateMachine.RegisteredIsFound | Duin/src/Duin/C_Modules/statemachine.c:3-48 | with the truncated comparison, a state just registered is found by its name, however long |
| CStateMachine.ShortNamesAsWritten | Duin/src/Duin/C_Modules/statemachine.c:11-23 | for names under 50 characters the code's raw comparisons agree with the truncated ones, so registration keeps names distinct and the registered state is found |
| CStateMachine.AsWrittenLongNamesCollide | Duin/src/Duin/C_Modules/statemachine.c:13 | under the raw comparison, two long names with a common 49-character prefix both register, the stored names collide, and neither can be switched to |
| CStateMachine.SmMachine.SwitchState | Duin/src/Duin/C_Modules/statemachine.c:35-48 | Ok exactly when a stored name equals the raw argument, after switching to the first match; otherwise NameNotFound and nothing changes |
| CStateMachine.SmMachine.SwitchStatePointer | Duin/src/Duin/C_Modules/statemachine.c:55-69 | the old state's exit runs (when set), previous becomes the old current, current the new state, then its enter runs |
| CStateMachine.SmMachine.SwitchPreviousState | Duin/src/Duin/C_Modules/statemachine.c:50-53 | current and previous swap roles, with exit and enter run around the swap |
| CStateMachine.SmMachine.Execute | Duin/src/Duin/C_Modules/statemachine.c:71-113 | Ok exactly when the current state and the callback are non-null, invoking it once; otherwise NoCallback and no effect |
| CStateMachine.SmMachine.ExecuteUpdate | Duin/src/Duin/C_Modules/statemachine.c:71-80 | the update callback, under the same rule |
| CStateMachine.SmMachine.ExecutePhysicsUpdate | Duin/src/Duin/C_Modules/statemachine.c:82-91 | the physics callback, under the same rule |
| CStateMachine.SmMachine.ExecuteDraw | Duin/src/Duin/C_Modules/statemachine.c:93-102 | the draw callback, under the same rule |
| CStateMachine.SmMachine.ExecuteHandleUi | Duin/src/Duin/C_Modules/statemachine.c:104-113 | the UI callback, under the same rule |
| CStateMachine.Renamed | Duin/src/Duin/C_Modules/statemachine.c:20-21 | registering a state already in the table renames every slot that holds it |
| GameObjects.GameObject.constructor | Duin/src/Duin/Objects/GameObject.cpp:8-11 | a new object has its identifier, no parent and no children |
| GameObjects.GameObject.AddChildObject | Duin/src/Duin/Objects/GameObject.cpp:17-40 | a null child or an identifier already among the children changes nothing and calls no Init; a new child is appended last, gets this object as parent, and Init runs once |
| GameObjects.GameObject.RemoveChildObject | Duin/src/Duin/Objects/GameObject.cpp:42-54 | every occurrence of the pointer is removed, the others keep their order, and the child's parent is reset either way |
| GameObjects.WithoutMultiset | Duin/src/Duin/Objects/GameObject.cpp:42-54 | removal deletes all occurrences of the child and nothing else |
| GameObjects.WithoutAbsent | Duin/src/Duin/Objects/GameObject.cpp:42-54 | removing an object that is absent changes nothing |
| GameObjects.WithoutAppend | Duin/src/Duin/Objects/GameObject.cpp:17-54 | removal works part by part: removing from a concatenation concatenates the removals |
| GameObjects.WithoutKeeps | Duin/src/Duin/Objects/GameObject.cpp:42-54 | every other child stays a child |
| GameObjects.GameObject.SetParent | Duin/src/Duin/Objects/GameObject.cpp:56-59 | only the parent field changes |
| GameObjects.GameObject.GetParent | Duin/src/Duin/Objects/GameObject.cpp:61-64 | returns the parent field |
| GameObjects.GameObject.ResetParent | Duin/src/Duin/Objects/GameObject.cpp:66-69 | the parent becomes null (so a second reset changes nothing) |
| GameObjects.Journal.Record | Duin/src/Duin/Objects/GameObject.cpp:114-168 | a hook call is appended to the journal |
| GameObjects.GameObject.Traverse | Duin/src/Duin/Objects/GameObject.cpp:114-168 | the hook runs on every child's subtree, in list order, and then on the object itself |
| GameObjects.VisitAllReaches | Duin/src/Duin/Objects/GameObject.cpp:114-168 | every object of the subtree is visited |
| GameObjects.ChildrenBeforeParent | Duin/src/Duin/Objects/GameObject.cpp:114-168 | a child's hook runs before its parent's (post-order) |
| GameObjects.VisitAllSnoc | Duin/src/Duin/Objects/GameObject.cpp:114-168 | visiting one more child appends its subtree's calls |
| GameObjects.GameObject.ObjectReady | Duin/src/Duin/Objects/GameObject.cpp:114-120 | the post-order traversal for Ready |
| GameObjects.GameObject.ObjectOnEvent | Duin/src/Duin/Objects/GameObject.cpp:122-128 | the post-order traversal for OnEvent with the event |
| GameObjects.GameObject.ObjectUpdate | Duin/src/Duin/Objects/GameObject.cpp:130-136 | the post-order traversal for Update with the delta |
| GameObjects.GameObject.ObjectPhysicsUpdate | Duin/src/Duin/Objects/GameObject.cpp:138-144 | the post-order traversal for PhysicsUpdate with the delta |
| GameObjects.GameObject.ObjectDraw | Duin/src/Duin/Objects/GameObject.cpp:146-152 | the post-order traversal for Draw |
| GameObjects.GameObject.ObjectDrawUI | Duin/src/Duin/Objects/GameObject.cpp:154-160 | the post-order traversal for DrawUI |
| GameObjects.GameObject.ObjectDebug | Duin/src/Duin/Objects/GameObject.cpp:162-168 | the post-order traversal for Debug |
| GameObjects.CreateChildObject | Duin/src/Duin/Objects/GameObject.h:22-30 | a fresh object, added as a child under the AddChildObject rules and returned |
| Signals.Signal.constructor | Duin/src/Duin/Core/Signal.h:77-79 | an empty signal, whose map is the inverse of the vector |
| Signals.Signal.Connect | Duin/src/Duin/Core/Signal.h:20-34 | appends the pair at the end and records its index, so the count grows by one; the map stays the inverse of the vector positions when the identifier is fresh |
| Signals.Signal.Disconnect | Duin/src/Duin/Core/Signal.h:37-56 | an unknown identifier is a no-op; a known one is removed by swap-with-last, every other callback stays, and the map stays the inverse of the positions |
| Signals.DisconnectKeepsIndexed | Duin/src/Duin/Core/Signal.h:42-55 | after swap-with-last removal and the index fix-up, the map is again the exact inverse of the positions, without the removed identifier |
| Signals.DisconnectKeepsOthers | Duin/src/Duin/Core/Signal.h:42-55 | exactly the entries with other identifiers remain |
| Signals.IndexedDistinct | Duin/src/Duin/Core/Signal.h:77-79 | an inverse index forces distinct identifiers |
| Signals.Signal.Emit | Duin/src/Duin/Core/Signal.h:59-74 | every non-empty callback is invoked once, in vector order, with the same arguments; afterwards no empty callback remains |
| Signals.EmitTraceCalls | Duin/src/Duin/Core/Signal.h:59-71 | the k-th invocation is the k-th surviving callback, and there is one per survivor |
| Signals.SurvivorsMembers | Duin/src/Duin/Core/Signal.h:83-97 | the survivors are exactly the entries with a callback |
| Signals.SurvivorsDistinct | Duin/src/Duin/Core/Signal.h:83-97 | survivors keep distinct identifiers |
| Signals.EmptyUuidsMembers | Duin/src/Duin/Core/Signal.h:63-70 | the identifiers collected during emission are exactly those of empty callbacks |
| Signals.KeepNotInSurvivors | Duin/src/Duin/Core/Signal.h:83-97 | dropping the collected identifiers keeps exactly the survivors |
| Signals.CleanupAsWritten | Duin/src/Duin/Core/Signal.h:81-105 | the cleanup as written filters the vector and erases the collected keys, but leaves the other indices as they were |
| Signals.CleanupAsWrittenGoesStale | Duin/src/Duin/Core/Signal.h:81-105 | one empty callback before a live one leaves the live one indexed at a position it no longer holds |
| Signals.Signal.CleanupInvalidCallbacks | Duin/src/Duin/Core/Signal.h:81-105 | keeps the entries with callbacks, in order, and rebuilds the map so it is again the inverse of the positions |
| Signals.Signal.RemoveListed | Duin/src/Duin/Core/Signal.h:83-97 | the entries whose identifier is not in the list, in order |
| Signals.Signal.PositionsOf | Duin/src/Duin/Core/Signal.h:81-105 | the map from each identifier to its position |
| KeyInput.StateValue | Duin/src/Duin/Core/Events/Input.cpp:99-132 | a key state reads as 1 exactly when it is down, and as 0 otherwise |
| KeyInput.Classify | Duin/src/Duin/Core/Events/Input.cpp:60-79 | a repeat is PressedRepeated and nothing else is |
| KeyInput.ClassifyTransitions | Duin/src/Duin/Core/Events/Input.cpp:60-79 | down after up is Pressed, down after down Held, up after down Released, up after up Idle, each an if-and-only-if, and distinct transitions give distinct events |
| KeyInput.Input.constructor | Duin/src/Duin/Core/Events/Input.cpp:27 | MAX_KEYS keys, all up in both frames |
| KeyInput.Input.CacheCurrentKeyState | Duin/src/Duin/Core/Events/Input.cpp:42-45 | previous becomes equal to current, and current is unchanged |
| KeyInput.Input.ClearCurrentKeyState | Duin/src/Duin/Core/Events/Input.cpp:47-51 | every current key is up, previous is untouched and the buffer is empty |
| KeyInput.Input.ProcessKeyboardEvent | Duin/src/Duin/Core/Events/Input.cpp:53-89 | the event's key becomes down exactly for a key-down and every other key is unchanged; the event is classified against the previous frame |
| KeyInput.Input.GetEvent | Duin/src/Duin/Core/Events/Input.cpp:91-97 | only event types in [0x300, 0x400) change the key state |
| KeyInput.Input.IsKeyPressed | Duin/src/Duin/Core/Events/Input.cpp:99-104 | 1 exactly when the key is down now and was up before |
| KeyInput.Input.IsKeyReleased | Duin/src/Duin/Core/Events/Input.cpp:113-118 | 1 exactly when the key is up now and was down before |
| KeyInput.Input.IsKeyDown | Duin/src/Duin/Core/Events/Input.cpp:120-125 | 1 exactly when the key is down now |
| KeyInput.Input.IsKeyUp | Duin/src/Duin/Core/Events/Input.cpp:127-132 | 1 exactly when the key is up now |
| KeyInput.Input.KeyQueriesConsistent | Duin/src/Duin/Core/Events/Input.cpp:99-132 | pressed and released are never both true; down and up are complements; pressed implies down and released implies up |
| KeyInput.Input.IsInputVectorPressed | Duin/src/Duin/Core/Events/Input.cpp:134-137 | true exactly when one of the four keys is down |
| KeyInput.Input.GetInputVector | Duin/src/Duin/Core/Events/Input.cpp:139-142 | components in {-1, 0, 1}, with x = right - left and y = up - down |
| KeyInput.Input.InputVectorNeedsPress | Duin/src/Duin/Core/Events/Input.cpp:134-142 | a non-zero vector means a key of the four is down |
| InputActions.MakeBinding | Duin/src/Duin/Core/Events/InputActions.h:27-35 | a binding records its device, key and event, and the hash combining the three part hashes |
| InputActions.FindHash | Duin/src/Duin/Core/Events/InputActions.cpp:35-43 | the first binding with the hash; None exactly when no binding has it |
| InputActions.ActionTable.constructor | Duin/src/Duin/Core/Events/InputActions.cpp:9-17 | an empty action table |
| InputActions.ActionTable.CreateInputAction | Duin/src/Duin/Core/Events/InputActions.cpp:9-17 | a new name gets a named action with no bindings; an existing name is left unchanged |
| InputActions.ActionTable.AddInputActionBinding | Duin/src/Duin/Core/Events/InputActions.cpp:24-44 | a missing action is created with an empty name; a binding whose hash is already present is rejected, otherwise appended; hashes stay distinct and other actions are unchanged |
| InputActions.WithoutHashRemoves | Duin/src/Duin/Core/Events/InputActions.cpp:51-66 | removing by hash keeps hashes distinct, leaves the hash absent and keeps every other binding |
| InputActions.ActionTable.RemoveInputActionBinding | Duin/src/Duin/Core/Events/InputActions.cpp:51-66 | a missing action is a no-op; otherwise the binding with that hash is removed |
| InputActions.RemoveStepAsWritten | Duin/src/Duin/Core/Events/InputActions.cpp:58-65 | a pass of the loop as written, at a binding that does not match, changes nothing (the iterator never advances) |
| InputActions.RemoveAsWrittenNeverEnds | Duin/src/Duin/Core/Events/InputActions.cpp:58-65 | with the match in second place, any number of passes of the loop as written leaves the state where it began, while the intended removal gives the first binding alone |
| InputActions.ActionTable.RemoveInputAction | Duin/src/Duin/Core/Events/InputActions.cpp:68-75 | the entry is erased; a missing name is a no-op |
| InputActions.ActionTable.IsInputActionTriggered | Duin/src/Duin/Core/Events/InputActions.cpp:77-92 | false for an unknown name; otherwise true exactly when some binding is triggered, and a binding without a device never is |
| HitReports.HitBuffer.constructor | Duin/src/Duin/Physics/impl/physx/PhysX_ControllerHitReport.cpp:9-21 | a new buffer is empty |
| HitReports.Kept | Duin/src/Duin/Physics/impl/physx/PhysX_ControllerHitReport.cpp:23-34 | a hit is appended at the end while there is room and dropped otherwise; the buffer never exceeds MAX_HIT_REPORTS = 8 |
| HitReports.KeptAllBounded | Duin/src/Duin/Physics/impl/physx/PhysX_ControllerHitReport.cpp:6 | a series of hits fills the buffer up to 8 and no further, keeping what was there |
| HitReports.KeptAllPrefix | Duin/src/Duin/Physics/impl/physx/PhysX_ControllerHitReport.cpp:23-60 | from empty, the buffer keeps the first 8 hits |
| HitReports.KeptPrefixFrom | Duin/src/Duin/Physics/impl/physx/PhysX_ControllerHitReport.cpp:23-60 | from any buffer, the hits kept are the earliest that fit |
| HitReports.ControllerHitReport.constructor | Duin/src/Duin/Physics/impl/physx/PhysX_ControllerHitReport.cpp:9-21 | current and previous refer to the two distinct, empty buffers of each kind |
| HitReports.ControllerHitReport.OnShapeHit | Duin/src/Duin/Physics/impl/physx/PhysX_ControllerHitReport.cpp:23-34 | the hit is appended to the current shape buffer if there is room; the handler runs and then the user callback if set; the other kinds are unchanged |
| HitReports.ControllerHitReport.OnControllerHit | Duin/src/Duin/Physics/impl/physx/PhysX_ControllerHitReport.cpp:36-47 | the same, for controller hits |
| HitReports.ControllerHitReport.OnObstacleHit | Duin/src/Duin/Physics/impl/physx/PhysX_ControllerHitReport.cpp:49-60 | the same, for obstacle hits |
| HitReports.ControllerHitReport.GetShapeHitReports | Duin/src/Duin/Physics/impl/physx/PhysX_ControllerHitReport.cpp:62-65 | returns the previous-frame buffer, never the current one |
| HitReports.ControllerHitReport.GetControllerHitReports | Duin/src/Duin/Physics/impl/physx/PhysX_ControllerHitReport.cpp:67-70 | returns the previous-frame buffer |
| HitReports.ControllerHitReport.GetObstacleHitReports | Duin/src/Duin/Physics/impl/physx/PhysX_ControllerHitReport.cpp:72-75 | returns the previous-frame buffer |
| HitReports.ControllerHitReport.CleanHitReports | Duin/src/Duin/Physics/impl/physx/PhysX_ControllerHitReport.cpp:77-94 | current and previous swap, current is then empty and previous holds the former current contents; the two stay distinct |
| HitReports.ControllerHitReport.ClearPrevious | Duin/src/Duin/Physics/impl/physx/PhysX_ControllerHitReport.cpp:79-81 | the previous buffers of all three kinds are emptied, and the current ones are untouched |
| QuadTrees.CommonPointIntersects | Duin/src/Duin/Core/Structures/QuadTree.h:66-69 | rectangles sharing a point intersect |
| QuadTrees.ChildRect | Duin/src/Duin/Core/Structures/QuadTree.h:128-139 | each quadrant has half the width and half the height of its parent |
| QuadTrees.QuadIndexSpec | Duin/src/Duin/Core/Structures/QuadTree.h:141-170 | -1 exactly for points on a midline; otherwise the point lies in that quadrant, and in no other |
| QuadTrees.QuadIndexInChild | Duin/src/Duin/Core/Structures/QuadTree.h:54-61 | a point inside the node and off the midlines lies in the chosen child |
| QuadTrees.QuadrantsTile | Duin/src/Duin/Core/Structures/QuadTree.h:128-139 | the four quadrants cover exactly the parent |
| QuadTrees.QuadrantInside | Duin/src/Duin/Core/Structures/QuadTree.h:128-139 | each quadrant lies inside its parent |
| QuadTrees.SplitWF | Duin/src/Duin/Core/Structures/QuadTree.h:128-139 | a split of an unsplit node creates the four empty quadrants one level down and keeps the contents |
| QuadTrees.SplitContents | Duin/src/Duin/Core/Structures/QuadTree.h:128-139 | a split keeps what the tree stores |
| QuadTrees.LeafWF | Duin/src/Duin/Core/Structures/QuadTree.h:32-34 | a new node is well formed and stores nothing |
| QuadTrees.TreeInsert | Duin/src/Duin/Core/Structures/QuadTree.h:36-62 | insertion keeps the node's bounds, limits and level, and its four child slots |
| QuadTrees.InsertWF | Duin/src/Duin/Core/Structures/QuadTree.h:36-62 | insertion keeps the tree well formed and adds the point exactly when it is inside the bounds |
| QuadTrees.InsertKeepsWF | Duin/src/Duin/Core/Structures/QuadTree.h:36-62 | insertion keeps the tree well formed |
| QuadTrees.AppendLocal | Duin/src/Duin/Core/Structures/QuadTree.h:43-47 | storing a point inside the bounds locally keeps the tree well formed and adds exactly that point |
| QuadTrees.InsertUnfoldMidline | Duin/src/Duin/Core/Structures/QuadTree.h:49-61 | a full node splits once and keeps a midline point itself |
| QuadTrees.InsertUnfoldChild | Duin/src/Duin/Core/Structures/QuadTree.h:49-61 | a full node splits once and passes an off-midline point to the indexed child |
| QuadTrees.InsertIntoChild | Duin/src/Duin/Core/Structures/QuadTree.h:54-61 | passing a point to a child keeps the tree well formed and adds the point |
| QuadTrees.QueryExact | Duin/src/Duin/Core/Structures/QuadTree.h:64-86 | the query returns exactly the stored points in the area, in storage order |
| QuadTrees.QueryMisses | Duin/src/Duin/Core/Structures/QuadTree.h:66-69 | a tree whose bounds miss the area stores nothing in that area |
| QuadTrees.ContentsInBounds | Duin/src/Duin/Core/Structures/QuadTree.h:36-62 | every stored point lies inside the tree's bounds |
| QuadTrees.InAreaNone | Duin/src/Duin/Core/Structures/QuadTree.h:71-77 | nothing outside the area is reported |
| QuadTrees.WFSearchable | Duin/src/Duin/Core/Structures/QuadTree.h:79-85 | a well-formed tree has all four child slots filled, or none |
| QuadTrees.TreeRemove | Duin/src/Duin/Core/Structures/QuadTree.h:88-122 | the corrected removal keeps the node's bounds, limits and level; when it removes nothing the tree is as it was |
| QuadTrees.RemoveWF | Duin/src/Duin/Core/Structures/QuadTree.h:88-122 | removal keeps the tree well formed; a point outside the bounds gives false; true means one stored point with that identifier was removed and nothing else |
| QuadTrees.RemoveKeepsWF | Duin/src/Duin/Core/Structures/QuadTree.h:88-122 | removal keeps the tree well formed |
| QuadTrees.RemoveFinds | Duin/src/Duin/Core/Structures/QuadTree.h:94-119 | a stored point with that identifier and position is found, so removal returns true |
| QuadTrees.RemoveLocal | Duin/src/Duin/Core/Structures/QuadTree.h:94-106 | erasing a local node keeps the tree well formed and removes exactly that node |
| QuadTrees.FirstWithUuid | Duin/src/Duin/Core/Structures/QuadTree.h:94-106 | the first local node with the identifier; None when there is no match |
| QuadTrees.TreeRemoveAsWritten | Duin/src/Duin/Core/Structures/QuadTree.h:88-122 | the removal as written: a failed removal leaves the tree unchanged, but an emptied child slot is reset |
| QuadTrees.RemoveAsWrittenLeavesHole | Duin/src/Duin/Core/Structures/QuadTree.h:113-116 | inserting one point below a split root and removing it as written leaves slot 1 empty while slot 0 is set, so a later query would meet an empty slot |
| QuadTrees.ExampleInsert | Duin/src/Duin/Core/Structures/QuadTree.h:49-61 | in the example the full root splits, keeps nothing locally, and the point goes to quadrant 1 |
| QuadTrees.ExampleRemoveChild | Duin/src/Duin/Core/Structures/QuadTree.h:94-106 | removing the point from its quadrant empties it |
| QuadTrees.RemoveKeepsSearchable | Duin/src/Duin/Core/Structures/QuadTree.h:79-85 | after the corrected removal every child slot can still be queried |
| QuadTrees.QuadTree.constructor | Duin/src/Duin/Core/Structures/QuadTree.h:32-34 | a new node with the given bounds, limits and level, with no points and empty slots |
| QuadTrees.QuadTree.Split | Duin/src/Duin/Core/Structures/QuadTree.h:128-139 | the in-place split agrees with the value split |
| QuadTrees.QuadTree.NewQuadrant | Duin/src/Duin/Core/Structures/QuadTree.h:128-139 | a fresh empty node with the quadrant's bounds one level down |
| QuadTrees.QuadTree.Insert | Duin/src/Duin/Core/Structures/QuadTree.h:36-62 | the in-place insertion agrees with TreeInsert and keeps the structure valid |
| QuadTrees.QuadTree.Place | Duin/src/Duin/Core/Structures/QuadTree.h:49-61 | the split-then-dispatch part of insertion agrees with TreeInsert |
| QuadTrees.QuadTree.InsertIntoChild | Duin/src/Duin/Core/Structures/QuadTree.h:54-61 | inserting into a child changes only that child's slot |
| QuadTrees.QuadTree.AddLocal | Duin/src/Duin/Core/Structures/QuadTree.h:43-47 | a point is appended to the local nodes |
| QuadTrees.QuadTree.EraseLocal | Duin/src/Duin/Core/Structures/QuadTree.h:94-106 | the local node at the position is erased |
| QuadTrees.QuadTree.Remove | Duin/src/Duin/Core/Structures/QuadTree.h:88-122 | the in-place removal agrees with TreeRemove, in result and new tree |
| QuadTrees.QuadTree.RemoveBelow | Duin/src/Duin/Core/Structures/QuadTree.h:108-121 | the search below the node agrees with the value model |
| QuadTrees.QuadTree.FindUuid | Duin/src/Duin/Core/Structures/QuadTree.h:94-106 | the scan finds the first local node with the identifier |
| QuadTrees.QuadTree.Query | Duin/src/Duin/Core/Structures/QuadTree.h:64-86 | the result vector gains exactly TreeQuery's identifiers |
| QuadTrees.QuadTree.CollectInArea | Duin/src/Duin/Core/Structures/QuadTree.h:71-77 | the identifiers of the local nodes inside the area are appended, in order |
| QuadTrees.QuadTree.QueryChildren | Duin/src/Duin/Core/Structures/QuadTree.h:79-85 | the four children are queried in order |
| ComponentRegistry.Run | Duin/src/Duin/ECS/ComponentSerializer.h:52-86 | a tag's deserializer only adds the tag; the others set the component from the JSON, through its reflection type when there is one |
| ComponentRegistry.LastColon | Duin/src/Duin/ECS/ComponentSerializer.h:95-99 | the position of the last ':', or None when there is none |
| ComponentRegistry.UnqualifiedSuffix | Duin/src/Duin/ECS/ComponentSerializer.h:89-103 | the unqualified name holds no ':' and follows the last ':', or is the whole string when there is none |
| ComponentRegistry.UnqualifiedIdempotent | Duin/src/Duin/ECS/ComponentSerializer.h:89-103 | an unqualified name is its own unqualified name |
| ComponentRegistry.ComponentSerializer.constructor | Duin/src/Duin/ECS/ComponentSerializer.h:141-143 | an empty registry |
| ComponentRegistry.ComponentSerializer.RegisterComponent | Duin/src/Duin/ECS/ComponentSerializer.h:27-106 | returns early only when the type name is already an alias key; otherwise sets serializer and deserializer, then maps the reflection type's unqualified name to the type name, so the type is registered and the alias resolves to it |
| ComponentRegistry.ComponentSerializer.Serialize | Duin/src/Duin/ECS/ComponentSerializer.h:108-116 | "{}" for an unregistered name, otherwise the registered serializer's output |
| ComponentRegistry.ComponentSerializer.Resolve | Duin/src/Duin/ECS/ComponentSerializer.h:123-138 | a name is resolved through the alias table first |
| ComponentRegistry.ComponentSerializer.Deserialize | Duin/src/Duin/ECS/ComponentSerializer.h:123-138 | Some exactly when the resolved name has a deserializer, and then its effect; an unknown name is a no-op |
| ComponentRegistry.ComponentSerializer.RegistryLookups | Duin/src/Duin/ECS/ComponentSerializer.h:108-138 | in a consistent registry a registered name serializes its own type, an alias always deserializes, and a non-alias deserializes exactly when registered |
| Filesystem.LastIndexOf | Duin/src/Duin/IO/Filesystem.cpp:17 | the position of the last occurrence, or None when there is none |
| Filesystem.FileNameWithoutSeparator | Duin/src/Duin/IO/Filesystem.cpp:13-26 | a path without '/' (including "") gives INVALID_PATH |
| Filesystem.FileNameSplits | Duin/src/Duin/IO/Filesystem.cpp:13-26 | otherwise the name has no '/' and the path is a prefix, then '/', then the name; a trailing '/' gives "" |
| Filesystem.SentinelIsAmbiguous | Duin/src/Duin/IO/Filesystem.h:30 | a real file named like the sentinel cannot be told from the error result |
| Filesystem.CPrefix | Duin/src/Duin/IO/Filesystem.cpp:28-39 | the characters up to the first NUL, as C string functions see them |
| Filesystem.FileExtensionSplits | Duin/src/Duin/IO/Filesystem.cpp:28-39 | no '.' or a last '.' at position 0 gives INVALID_PATH; otherwise all after the last '.', which has no '.' and is "" for a trailing '.' |
| Filesystem.ExtensionAfterDot | Duin/src/Duin/IO/Filesystem.cpp:28-39 | with the last '.' past the start, the extension is what follows it |
| Filesystem.ExtensionSpansSeparators | Duin/src/Duin/IO/Filesystem.cpp:28-39 | the whole path is scanned: "a.b/c" gives "b/c" |
| Filesystem.LeadingDotIsInvalid | Duin/src/Duin/IO/Filesystem.cpp:28-39 | ".git" gives INVALID_PATH |
| Filesystem.EmptyPathIsValid | Duin/src/Duin/IO/Filesystem.cpp:101-107 | "" is a valid path and only the sentinel is invalid |
| Filesystem.EnsureUnixPath | Duin/src/Duin/IO/Filesystem.h:322-354 | every '\\' becomes '/', the length is kept and every other character is unchanged |
| Filesystem.EnsureUnixPathIdempotent | Duin/src/Duin/IO/Filesystem.h:322-354 | normalising twice equals normalising once; a result has no '\\', and a path without one is unchanged |
| Filesystem.PrefNames.SetPrefPath | Duin/src/Duin/IO/Filesystem.h:211-241 | stores the organisation and application names and always returns true |
| Filesystem.PrefNames.MapVirtualCases | Duin/src/Duin/IO/Filesystem.h:356-409 | "bin://rest" maps to the base path + rest, "app://rest" to the preference path + rest when the names are set, each with Unix separators; "usr://", unknown prefixes and inputs under six characters give INVALID_PATH; no result contains a '\' |
| Branches.ToLower | create_branch.py:31 | ASCII upper-case letters become lower case and nothing else changes |
| Branches.LowerDashed | create_branch.py:31 | lower-cases and turns every space into '-' |
| Branches.ReplaceDisallowed | create_branch.py:32 | the result uses only [a-z0-9._-] |
| Branches.ReplaceRuns | create_branch.py:32 | each maximal run of disallowed characters becomes exactly one '-', and the text on either side is replaced independently (allowed text is kept, ReplaceAllowed) |
| Branches.ReplaceAllowed | create_branch.py:32 | text of allowed characters only is left unchanged |
| Branches.StripLeading | create_branch.py:34 | the suffix of the input left after dropping exactly its leading run of '-' and '_' |
| Branches.StripTrailing | create_branch.py:34 | the prefix of the input left after dropping exactly its trailing run of '-' and '_' |
| Branches.SlugifyIsSlug | create_branch.py:29-34 | a slug uses only [a-z0-9._-], has no "--", and neither starts nor ends with '-' or '_' |
| Branches.SlugifyIdempotent | create_branch.py:29-34 | slugifying a slug gives it back |
| Branches.SlugifyLowersAndDashes | create_branch.py:31 | a name of letters and single inner spaces becomes its lower-case form with spaces as '-' |
| Branches.CollapseNoDoubleDash | create_branch.py:33 | collapsing leaves no "--" |
| Branches.CollapseRuns | create_branch.py:33 | each maximal run of '-' becomes exactly one '-', and the text on either side is collapsed independently |
| Branches.CollapseNoDouble | create_branch.py:33 | text without "--" is left unchanged |
| Branches.CollapseKeepsAllowed | create_branch.py:33 | collapsing keeps only allowed characters |
| Branches.StripEndsGood | create_branch.py:34 | stripping keeps the characters allowed and free of "--", and leaves no '-' or '_' at either end |
| Branches.DigitRun | create_branch.py:55-61 | the length of the leading run of digits |
| Branches.MaxOr0 | create_branch.py:55-61 | the maximum of the numbers found, or 0 when none is found |
| Branches.NumbersComplete | create_branch.py:55-61 | the numbers collected are exactly those that match `^(origin/)?{type}/#(\d+)_` among the refs |
| Branches.NextBranchNumber | create_branch.py:55-61 | the scan returns 1 plus the largest matched number, or 1 when none match |
| Branches.NextNumberIsFresh | create_branch.py:55-61 | the next number exceeds every matched number, and the maximum is 0 or is matched |
| Branches.Pad4 | create_branch.py:63 | all digits, of width exactly max(4, number of decimal digits): the decimal digits preceded by zeros |
| Branches.Decimal | create_branch.py:63 | at least one character, all digits |
| Branches.Pad4Value | create_branch.py:63 | the padded digits denote the number |
| Branches.BranchNameRoundTrip | create_branch.py:55-63 | a name built for a number matches the numbering pattern with that number, locally or under origin/ |
| Branches.MatchTypedName | create_branch.py:55-61 | type + "/#" + digits + "_..." is matched with the digits' value |
| Branches.CreateBranchName | create_branch.py:45-63 | None for a type outside the listed types; otherwise type + "/#" + the next number padded to 4 + "_" + the slug |
| Coverage.ShortenTypeNameCases | process_testcoverage.py:26-37 | "" for an empty name; the unescaped text when at most 80 characters; otherwise the first 50 + "..." + the last 30, exactly 83 characters, above the 80 limit |
| Coverage.FormatFunctionName | process_testcoverage.py:39-49 | the name alone for an empty type, else "name (shortened type)" |
| Coverage.GroupFunctions | process_testcoverage.py:80-86 | every function goes into the one group keyed by its (namespace, type), and each group keeps input order |
| Coverage.WithKey | process_testcoverage.py:80-86 | only functions with the key, none added |
| Coverage.WithKeyCounts | process_testcoverage.py:80-86 | a function's group holds it as often as the input does |
| Coverage.SortFunctions | process_testcoverage.py:92-94 | the result is a permutation of the input |
| Coverage.SortFunctionsSorted | process_testcoverage.py:92-94 | the result is sorted by name and is a permutation of the input |
| Coverage.InsertByName | process_testcoverage.py:92-94 | the result holds the input and the new element, and nothing else |
| Coverage.InsertKeepsSorted | process_testcoverage.py:92-94 | inserting into a sorted list keeps it sorted |
| Coverage.StrLeTotal | process_testcoverage.py:92-94 | name order is total |
| Coverage.StrLeTransitive | process_testcoverage.py:92-94 | name order is transitive |

## Left out

- ObjectStates.GameStateMachine.PopState requires the top state's parent to be the machine's object. The source needs only a non-null parent, then removes the state from that parent's children. SwitchState, SwitchNewState and the forwarder ObjectStates.GameState.PopState inherit this requirement.
- ObjectStates.GameStateMachine.FlushStack requires the stack to lie inside the machine's children (`Valid`). FlushAndSwitchState, FlushAndSwitchNewState and GameState.FlushStack require the same. The source needs no such invariant, but without it a pop could not be shown to find its parent.
- ObjectStates.GameStateMachine.PushState does not model an Enter callback that re-enters the machine. Callbacks are recorded in a log, not run. For the same reason the returned state is always the top.
- GameObjects.GameObject.Traverse and the hooks built on it (ObjectReady, ObjectUpdate and the rest) require an acyclic hierarchy (a ranked `Shape`). The source's AddChildObject checks only the children's identifiers, so it accepts the object itself or an ancestor as a child, after which those hooks recurse without end. The model's AddChildObject accepts such a child too; the model does not capture the non-terminating traversal that follows.
- ObjectStates: a null state on the stack is not modelled, because stacked states are non-null references. The source's null-top check in PopState therefore has no counterpart.
- ObjectStates: the `Enable` implementation is not part of this model. It is a plain flag.
- Equality of game objects, callback states and object states (GameObject operator==, the Utils state operator==/!=, GameState operator== and IsEqualTo) is defined as identifier equality by the predicates `GameObjects.GameObject.Equals`, `CallbackStates.SameState`, `ObjectStates.GameState.Equals` and `ObjectStates.GameState.IsEqualTo`. Nothing further is proved about them.
- Uuid: the identifier type's implementation is not part of this model. Fresh identifiers and the random default of a missing identifier member are parameters. The hex text form is defined concretely, and the round trip its tests assert is proved instead of taken as an axiom.
- Uuid: parsing text that holds a character other than a hex digit or `-` after the optional prefix, or whose value does not fit in 64 bits, gives the invalid identifier 0. This is an assumption, because the parser's implementation is not part of this model.
- ObjectStates.GameStateMachine.SwitchState follows the code: the pop unpauses the state beneath before the new state is pushed.
- Json: doubles are opaque bit tokens, with no floating-point arithmetic.
- Json: RapidJSON text parsing and writing are left out. A text is either the whole written form of a value or malformed; the pretty-printing writer is not modelled.
- Json.ParseWrite: the model has each finite double read back with the same bits. RapidJSON's default reader is not the full-precision one, so in the source Scene.ComponentValueRoundTrip and the Scene round trips that rest on it hold only for doubles that reader reads back exactly.
- Json: RemoveMember removes the first member with the key and moves the last member into the freed slot, as RapidJSON's member removal does.
- Json: iterators, cloning and pointer-identity aliasing between handles are left out. A `JsonValue` handle owns its value.
- Json.HasMember, Json.GetMember, Json.JsonValue.AddMember and Json.JsonValue.RemoveMember compare keys as whole strings. The source passes the key as a C string to RapidJSON, so a key is cut at its first NUL: on {"a": 1}, HasMember("a\0b") is true in the source and false in the model, and AddMember removes the cut key but appends the full name. The model's keys are plain character sequences without that cut.
- Json.Index requires an in-range index on arrays, because the source does no bounds check there.
- Json.GetString returns the stored string whole. The source builds its result from a C string pointer, so an embedded NUL ends it early. The model's strings are plain character sequences and the cut is not applied, which keeps the Scene round trips free of a no-NUL premise.
- Json.JsonValue.SetString: a string stored with an embedded NUL reads back whole through GetString in the model, but in the source only up to the first NUL. The Scene round trips inherit this: in the source they hold only for names, paths and type names without NUL.
- Scene: the "enabled" member, when missing, defaults to false. The source leaves the flag as it was.
- Scene: a missing "uuid" member is read as the single `absentId` parameter. The source draws a fresh random identifier each time, so two entities without an identifier get distinct ones there and the same one in the model.
- Signals.Signal.Emit and Signals.Signal.Disconnect require the map to be the exact inverse of the vector (Valid), which the source does not check. Callbacks are recorded, not run, so one that connects or disconnects during emission is not modelled.
- Signals.Signal.Connect keeps the index invariant only for a fresh identifier. With a duplicate identifier the source only logs an error, and the model then promises nothing about the invariant.
- CStateMachine.SmMachine.RegisterState and CStateMachine.SmMachine.SwitchState follow the code as written: they compare the raw argument with the truncated stored names. The corrected, truncated comparison is `CStateMachine.RegisterRefusedTruncated` and `CStateMachine.LookupTruncated`, and its properties are proved as lemmas beside them.
- Signals.Signal.CleanupInvalidCallbacks is the corrected cleanup. It rebuilds the index map. The cleanup as written is `Signals.CleanupAsWritten`.
- Logging, warnings and asserts in every file are left out.
- KeyInput: MAX_KEYS, the SDL scancode table and the keycode-to-scancode map `keymap` come from SDL. They are a constant and a parameter.
- KeyInput: the IsKeyPressedAgain and GetKeyPressed stubs are left out, and so is the commented-out push into the input buffer.
- InputActions: the part hashes of a binding and the device event query `getEvent` are parameters. The 64-bit hash mixing is modelled on `bv64`.
- InputActions: the try_emplace failure branch cannot be reached once the name is known to be absent, so it is left out.
- InputActions.ActionTable.RemoveInputActionBinding is the intended swap-with-last removal, because the loop as written does not terminate. `InputActions.RemoveAsWrittenNeverEnds` models the loop as written.
- HitReports: the post-frame callback registration (QueuePostFrameCallback) is left out. CleanHitReports models what the registered callback does. PhysX hit payloads are generic values.
- QuadTrees: coordinates are `real`, not float.
- QuadTrees: Rectangle.h is not part of this model. `Contains` and `Intersects` are taken to be the closed-rectangle tests.
- QuadTrees: the query's output vector is an input sequence plus the returned sequence.
- QuadTrees.QuadTree.Remove follows the corrected removal, which keeps an emptied child in its slot.
- QuadTrees.QuadTree.Query requires every child slot to be set or every slot to be empty (`Searchable`). Well-formed trees have this property.
- ComponentRegistry: the reflection library's JSON reading and writing are a parameter, and stored serializers and deserializers are tokens. The effect of a deserializer on an entity is returned, not performed.
- Filesystem: GetBasePath and GetPrefPath come from the platform library and are parameters. The SDL wrappers are left out.
- Filesystem: the bodies of EnsureUnixPath, MapVirtualToSystemPath and SetPrefPath are not part of this model. They are modelled from the header's doc comments: the prefix cases, the sentinel, and the Unix separators of a mapped path (EnsureUnixPath applied to the result).
- Filesystem: the 6-character minimum for a virtual path follows the header's doc comment.
- Filesystem: an embedded NUL ends the string for GetFileExtension, as the C string functions it uses do.
- Filesystem: GetFileExtension follows the code and the header's doc comment, so a name whose only '.' leads gives INVALID_PATH. The filesystem tests expect the opposite.
- Branches: the git subprocess, argument handling and `sys.exit` are left out. The existing refs are a parameter.
- Branches: case conversion and `\d` are ASCII only. Python's Unicode `lower()` and Unicode digits are not modelled.
- Coverage: sort_groups, XML parsing, the report output and the floating-point coverage percent are left out. Unescaping is a parameter.
- Coverage.SortFunctionsSorted does not state stability. The model is an insertion sort that keeps equal names in input order, as Python's stable `sorted` does, but that is not proved.

## Findings

| source | as written | input that shows it | evidently intended | confidence | as-written member | corrected member |
|---|---|---|---|---|---|---|
| Duin/src/Duin/C_Modules/statemachine.c:13, 20-21, 39 | the duplicate check and the lookup compare the raw argument with names stored truncated to 49 characters | two 50-character names with a common 49-character prefix: both register under the same stored name, and neither can be switched to | compare the truncated argument, so stored names stay distinct and every registered state is found | not executed | CStateMachine.AsWrittenLongNamesCollide | CStateMachine.RegisteredIsFound |
| Duin/src/Duin/Core/Signal.h:81-105 | cleanup erases the empty callbacks' keys but leaves the other identifiers at their old positions | `[Entry(1, None), Entry(2, Some(0))]` with map `{1: 0, 2: 1}`: afterwards identifier 2 is at position 0 but indexed at 1 | refresh the survivors' indices so the map stays the inverse of the positions | not executed | Signals.CleanupAsWrittenGoesStale | Signals.Signal.CleanupInvalidCallbacks |
| Duin/src/Duin/Core/Events/InputActions.cpp:58-65 | the removal loop never advances its iterator past a binding that does not match | two bindings with the match second: the loop stays at the first binding forever | remove the binding with the hash (swap with the last, then pop) | not executed | InputActions.RemoveAsWrittenNeverEnds | InputActions.WithoutHashRemoves |
| Duin/src/Duin/Core/Structures/QuadTree.h:113-116 | a child is reset to null once its own node list is empty, even if its sub-children hold nodes; Query dereferences all four slots and Insert tests only slot 0 | a root with maxNodes 0 over a 4x4 square, one point at (1, 1) inserted then removed: slot 1 is null while slot 0 is set | keep the emptied child in its slot | not executed | QuadTrees.RemoveAsWrittenLeavesHole | QuadTrees.RemoveKeepsSearchable |
