# Ernest's enaction core, in Dafny

This project models the decision core of Ernest, a developmental agent. The
agent learns hierarchies of acts (sequences of interactions) and enacts them.
The model covers these parts of it:

- **The act registry of `ActImpl`, in both its versions** (package `imos2`
  and package `eca.ss.enaction`).
  - Acts are interned in a static map keyed by a string. Primitive acts
    are keyed by interaction label + area label; composite acts by
    pre-act label + post-act label.
  - The acts are kept in an arena whose order is the order of creation.
  - The arena carries the structural attributes of each act: label,
    length, enaction value, weight, and the eca version's `getArea` and
    `getValue`.
  - It also carries the two execution fields `m_step` and `m_prescriber`.
- **The prescription protocol of `ActImpl`**: `prescribe`,
  `updatePrescriber` and `terminate`. They walk and rewrite the execution
  fields in place.
  - Module `Prescription` gives each operation as a function from the arena
    before the call to the arena after it, with lemmas that say what the
    call does.
  - Class `Registry.ActRegistry` runs the same operations imperatively, and
    each method is proved to match its function.
  - Module `Rounds` follows the success path of an act. The act is
    prescribed; then, round after round, `updatePrescriber` runs on the
    primitive act just enacted and `prescribe` runs on the act it returns.
    The rounds enact the act's primitive steps in order, and the round
    after the last one returns null, so there are exactly `getLength`
    rounds.
- **`AttentionalSystem`**, the controller. It has:
  - the working-memory lists: the context list, the base context list and
    the activation list;
  - the hierarchical follow-up of an intention (`nextAct`);
  - the downward spreading of activation (`spreadActivation`);
  - the random choice among tied acts (`selectAct`);
  - the learning and selection gating of `step`.
  - Acts and schemas live in an arena split in two parts:
    - the structure that episodic memory builds (`Attention.Memory`);
    - the control fields that the controller rewrites (`Attention.Control`).
  - Class `Attentional.AttentionalSystem` holds the lists, the intention
    pointers and the control fields, and changes them in place.
- **`ActPropositionImpl`**: a weighted proposal to enact an act. It is a
  class with `compareTo`, `equals` and the in-place `addWeight`.
- **`ErnestUtils.hexColor` and `formatHex`**: they encode an RGB integer as
  six upper-case hexadecimal digits.

Calls into episodic memory and the random generator become parameters of
the step (`Attentional.Answers`). The record calls a step makes are logged in
order in the class's `recorded` field, so that contracts can state them.

## Keys, labels and equality of acts

- `createCompositeKey` (imos2/ActImpl.java:114-117) registers a composite
  under its pre-act's label followed by its post-act's label, with no
  separator. `getLabel` (lines 196-204) gives a composite that same string
  in parentheses, and a primitive act its key. `equals` (lines 177-194)
  compares labels.
- The registry holds one act per key. So two composites with equal labels
  are one act, and so are two primitive acts with equal labels:
  `Acts.LabelsIdentifyActs` states that `equals` is identity on acts of the
  same kind.
- What the code does not ensure is that different requests get different
  acts.
  - Two different pairs of parts can share a key. Labels "ab" + "c" and
    "a" + "bc" both give the key "abc", and the registry answers the second
    request with the act the first one registered (`Acts.KeyCollision`,
    `Acts.KeyCollisionExample`).
  - A composite request can even get a primitive act. This happens when a
    primitive act's interaction label + area label equals the composite
    key. For example, with primitive acts labelled "a" and "b", the
    primitive act of interaction "a" in area "b" has the key "ab", and a
    composite request for "a" and "b" returns it. That act is primitive,
    with length 1 and its own value, not the sum of the parts'
    (`Acts.PrimitiveAnswersComposite`,
    `Acts.PrimitiveAnswersCompositeExample`).
  - `Acts.InternComposite` therefore states the label of the act returned
    only when that act is a composite.
- The model follows the code in all of this.

## Model

| member | source | states |
|---|---|---|
| Acts.InternRegisters | e-ernest/src/imos2/ActImpl.java:56-73 | interning returns the act registered under the candidate's key. A candidate is registered only if its key was absent. The registry grows by at most one act, keeps earlier acts in their place (their creation order) and keeps exactly one act per key. |
| Acts.InternIdempotent | e-ernest/src/imos2/ActImpl.java:85-94 | a second request with the same key returns the same act and changes neither the arena nor the map |
| Acts.InternPrimitive | e-ernest/src/imos2/ActImpl.java:56-78 | createOrGetPrimitiveAct keeps the registry well formed and returns the act keyed by interaction label + area label. When that act is new, it has length 1, weight PRIMITIVE_WEIGHT (100), the interaction's value, and a label equal to the key. |
| Acts.InternComposite | e-ernest/src/imos2/ActImpl.java:85-94 | createOrGetCompositeAct returns the act keyed by pre label + post label. When that act is new, it has the two parts, the sum of their values and lengths, and the label "(" + pre label + post label + ")". Otherwise the arena is unchanged. |
| Acts.KeyCollision | e-ernest/src/imos2/ActImpl.java:87-91 | two composite requests whose parts give the same concatenated key (pre label + post label, as createCompositeKey builds it): the second request returns the act the first one registered, which is made of the first pair's parts, and registers nothing |
| Acts.KeyCollisionExample | e-ernest/src/imos2/ActImpl.java:114-117 | labels "ab"+"c" and "a"+"bc" collide, so the second composite request returns the first act |
| Acts.PrimitiveAnswersComposite | e-ernest/src/imos2/ActImpl.java:85-94 | when a primitive act holds the composite key, a composite request returns that primitive act and registers nothing; its length 1 is below the sum of the parts' lengths |
| Acts.PrimitiveAnswersCompositeExample | e-ernest/src/imos2/ActImpl.java:85-94 | with primitive acts labelled "a" and "b", the primitive act of interaction "a" in area "b" answers the composite request for them, and keeps its own value and length 1 |
| Acts.RegisteredLabel | e-ernest/src/imos2/ActImpl.java:85-94 | an act already registered under a composite key is in the arena and, when composite, is labelled "(" + pre label + post label + ")" |
| Acts.AppendComposite | e-ernest/src/imos2/ActImpl.java:119-133 | the constructor of a composite keeps the arena well formed and gives the new act the parenthesised label of its parts |
| Acts.LabelIsKey | e-ernest/src/imos2/ActImpl.java:196-204 | getLabel is the stored key for a primitive act and the key in parentheses for a composite |
| Acts.LabelFrame | e-ernest/src/imos2/ActImpl.java:196-204 | a label depends only on the keys and parts of the acts below it, not on execution fields |
| Acts.EqualsIsLabelEquality | e-ernest/src/imos2/ActImpl.java:177-194 | equals holds exactly when the labels are equal. It is false for null and for objects of another class. It is reflexive, symmetric and transitive. |
| Acts.LabelsIdentifyActs | e-ernest/src/imos2/ActImpl.java:177-204 | in a registry with one act per key, equals holds between two composites, or between two primitive acts, exactly when they are the same act |
| Acts.Leaves | e-ernest/src/imos2/ActImpl.java:216-219 | an act has getLength primitive steps, all primitive and created no later than it |
| Acts.ValueIsSumOfLeaves | e-ernest/src/imos2/ActImpl.java:85-90 | the enaction value of an act is the sum of its primitive steps' values |
| Acts.SumValuesAppend | e-ernest/src/imos2/ActImpl.java:88 | the value of a sequence of steps is additive over concatenation |
| Acts.GetValue | e-ernest/src/eca/ss/enaction/ActImpl.java:281-286 | the recursive getValue always equals the enaction value stored when the act was created |
| Acts.GetArea | e-ernest/src/eca/ss/enaction/ActImpl.java:254-259 | getArea of a composite is the area of its last primitive step |
| Acts.AppendKeepsWellFormed | e-ernest/src/eca/ss/enaction/ActImpl.java:50-87 | registering a new act with its derived attributes keeps every earlier act's attributes intact |
| Registry.ActRegistry.constructor | e-ernest/src/eca/ss/enaction/ActImpl.java:21 | the registry starts empty and valid |
| Registry.ActRegistry.CreateOrGetPrimitiveAct | e-ernest/src/eca/ss/enaction/ActImpl.java:50-59 | the map and arena after the call, and the act returned, are those of interning the new primitive candidate; the registry stays valid |
| Registry.ActRegistry.CreateOrGetCompositeAct | e-ernest/src/eca/ss/enaction/ActImpl.java:71-87 | the same for the composite candidate made of pre and post |
| Registry.ActRegistry.Prescribe | e-ernest/src/imos2/ActImpl.java:280-292 | the arena after prescribe is PrescribeState and the act returned is the bottom of the left spine; the map is unchanged |
| Registry.ActRegistry.UpdatePrescriber | e-ernest/src/imos2/ActImpl.java:244-268 | the arena after updatePrescriber and the act returned are UpdateState's; the map is unchanged |
| Registry.ActRegistry.Terminate | e-ernest/src/imos2/ActImpl.java:270-278 | the arena after terminate is TerminateState's; the map is unchanged |
| Registry.ExecutionFrame | e-ernest/src/imos2/ActImpl.java:221-239 | setStep and setPrescriber change no key, part, value, length or weight, so the registry stays valid |
| Prescription.SetStep | e-ernest/src/imos2/ActImpl.java:221-224 | setStep changes only execution fields and keeps the prescriber links valid |
| Prescription.SetPrescriber | e-ernest/src/imos2/ActImpl.java:231-234 | setPrescriber to a composite that has the act as a part keeps the links valid and changes nothing else |
| Prescription.WellFormedFrame | e-ernest/src/imos2/ActImpl.java:221-239 | changing execution fields keeps every derived attribute of every act |
| Prescription.LeftSpine | e-ernest/src/imos2/ActImpl.java:280-292 | the acts prescribe passes through run from the act down its pre-acts to a primitive act |
| Prescription.LeftSpineEndsAtFirstLeaf | e-ernest/src/imos2/ActImpl.java:280-292 | the act prescribe returns is the first primitive step of the act |
| Prescription.PrescribeState | e-ernest/src/eca/ss/enaction/ActImpl.java:235-247 | prescribe keeps the links valid and changes only execution fields |
| Prescription.PrescribeEffect | e-ernest/src/imos2/ActImpl.java:280-292 | prescribe returns a primitive act. Every composite on the spine is left at step 0, with its pre-act's prescriber pointing to it. Acts off the spine, the top act's own prescriber and the primitive's step are unchanged. |
| Prescription.PrescribeHead | e-ernest/src/imos2/ActImpl.java:285-290 | one level of prescribe extends the prescribed spine by the act itself |
| Prescription.Chain | e-ernest/src/imos2/ActImpl.java:244-268 | the prescriber chain of an act climbs strictly upward and ends at an act without a prescriber |
| Prescription.ChainLinks | e-ernest/src/imos2/ActImpl.java:244-268 | every act of the chain except the last has the next act of the chain as its prescriber |
| Prescription.ChainFrame | e-ernest/src/imos2/ActImpl.java:244-268 | the chain above an act depends only on the prescriber links above it |
| Prescription.UpdateState | e-ernest/src/eca/ss/enaction/ActImpl.java:199-223 | updatePrescriber keeps the links valid, changes only execution fields, and returns an act in the arena |
| Prescription.UpdateEffect | e-ernest/src/imos2/ActImpl.java:244-268 | updatePrescriber returns null exactly when no prescriber on the chain is at step 0, and then it has consumed every link on the chain and changed nothing else. Otherwise the first prescriber at step 0 moves to step 1, becomes the prescriber of its post-act (the act returned), and every link below it is consumed. |
| Prescription.UpdateAdvance | e-ernest/src/imos2/ActImpl.java:252-258 | a prescriber at step 0 advances to its post-act |
| Prescription.UpdatePast | e-ernest/src/imos2/ActImpl.java:259-264 | when the prescriber is past step 0, updatePrescriber clears the act's link and carries on from the prescriber, with the same outcome along the whole chain |
| Prescription.UpdateHead | e-ernest/src/imos2/ActImpl.java:259-264 | a prescriber past step 0 passes the climb on, with the link below it consumed |
| Prescription.TerminateState | e-ernest/src/eca/ss/enaction/ActImpl.java:225-233 | terminate keeps the links valid and changes only execution fields |
| Prescription.TerminateEffect | e-ernest/src/imos2/ActImpl.java:270-278 | terminate leaves every act on the prescriber chain at step 0 without a prescriber, and every other act as it was |
| Prescription.ResetHead | e-ernest/src/imos2/ActImpl.java:272-277 | resetting an act in front of an already reset chain resets the whole chain |
| Rounds.LeftSpineNodes | e-ernest/src/imos2/ActImpl.java:280-292 | the acts prescribe passes through are the acts along the path that always takes the pre-act |
| Rounds.PathOfLeaf | e-ernest/src/imos2/ActImpl.java:280-292 | the path to the k-th primitive step of an act ends at that step |
| Rounds.PathOfFirst | e-ernest/src/imos2/ActImpl.java:280-292 | the path to the first primitive step is the one prescribe takes |
| Rounds.NextPath | e-ernest/src/imos2/ActImpl.java:244-268 | from the path to the k-th primitive step, climbing as updatePrescriber does and then going down the pre-acts gives the path to the (k+1)-th; from the path to the last one, the climb goes nowhere |
| Rounds.PrescribeAlong | e-ernest/src/imos2/ActImpl.java:280-292 | when the execution fields follow a path, prescribe on the act where it ends extends the path down the pre-acts to a primitive act, returns that act, and leaves the fields following the longer path |
| Rounds.UpdateAlong | e-ernest/src/imos2/ActImpl.java:244-268 | when the execution fields follow a path, updatePrescriber on its last act returns null exactly when every step of the path took a post-act. Otherwise it returns the post-act of the lowest composite whose pre-act the path took, and the fields follow the path to that post-act. |
| Rounds.UpdateAdvanceAlong | e-ernest/src/imos2/ActImpl.java:252-258 | the composite just above the end of the path, at step 0, moves to step 1 and prescribes its post-act, and the fields follow the path to that post-act |
| Rounds.Round | e-ernest/src/imos2/ActImpl.java:244-292 | one round (updatePrescriber, then prescribe on the act returned) keeps the links valid, changes only execution fields and names an act in the arena |
| Rounds.Rounds | e-ernest/src/imos2/ActImpl.java:244-292 | any number of rounds after prescribe keeps the links valid and changes only execution fields |
| Rounds.FirstRound | e-ernest/src/imos2/ActImpl.java:280-292 | prescribe on an act without a prescriber leaves the fields following the path to its first primitive step, which it returns |
| Rounds.RoundStep | e-ernest/src/imos2/ActImpl.java:244-292 | a round that starts with the fields following the path to the primitive step before the k-th returns the k-th, with the fields following its path |
| Rounds.RoundsAlong | e-ernest/src/imos2/ActImpl.java:244-292 | before round k the fields follow the path to the k-th primitive step: each composite on it is at step 0 or 1 as the path goes into its pre-act or its post-act, and each act on it has the act above as its prescriber; the act to enact is the k-th primitive step |
| Rounds.LastRound | e-ernest/src/imos2/ActImpl.java:244-268 | for an act without a prescriber, the round after the one that enacts its last primitive step returns null |
| Rounds.SuccessPath | e-ernest/src/imos2/ActImpl.java:244-292 | for an act without a prescriber, round k enacts the act's k-th primitive step for every k below getLength, and round getLength returns null |
| Proposition.ActProposition.constructor | e-ernest/src/eca/decider/ActPropositionImpl.java:19-22 | a proposition holds its act and its weight |
| Proposition.ActProposition.CompareTo | e-ernest/src/eca/decider/ActPropositionImpl.java:24-26 | compareTo is negative, zero or positive as this weight is greater than, equal to or less than the other's, so larger weights sort first |
| Proposition.ActProposition.AddWeight | e-ernest/src/eca/decider/ActPropositionImpl.java:36-38 | addWeight adds w to the weight and keeps the act |
| Proposition.ActProposition.Equals | e-ernest/src/eca/decider/ActPropositionImpl.java:43-60 | equals holds exactly for a proposition of the same act, whatever the weights; never for null or another class |
| Proposition.Compare | e-ernest/src/eca/decider/ActPropositionImpl.java:25 | Integer.compareTo is -1, 0 or 1 as the first is less than, equal to or greater than the second |
| Proposition.CompareToIsDescendingOrder | e-ernest/src/eca/decider/ActPropositionImpl.java:24-26 | compareTo is antisymmetric, zero on itself and transitive: the total order of descending weight |
| Proposition.EqualsIsSameAct | e-ernest/src/eca/decider/ActPropositionImpl.java:43-60 | equals is reflexive and symmetric, false for null and other classes, and holds exactly for the same act |
| Hex.Digit | e-ernest/src/utils/ErnestUtils.java:99-101 | the digit written for 0..15 is an upper-case hexadecimal digit, a decimal one exactly below 10 |
| Hex.DigitValue | e-ernest/src/utils/ErnestUtils.java:99-101 | reading a hexadecimal digit gives a value whose digit is that character |
| Hex.DigitRoundTrip | e-ernest/src/utils/ErnestUtils.java:99-101 | reading back the digit of d gives d |
| Hex.NatToHex | e-ernest/src/utils/ErnestUtils.java:99-101 | the base-16 digits of n are hexadecimal digits, and there is exactly one of them for n below 16 |
| Hex.NatToHexDecodes | e-ernest/src/utils/ErnestUtils.java:99-101 | the digits Integer.toString(n, 16) writes for n >= 0 read back to n in base 16 |
| Hex.FormatHexCases | e-ernest/src/utils/ErnestUtils.java:94-102 | formatHex writes 0 as "00", pads 1..15 with a leading "0" and writes 16..255 as two digits. From 16 on it is the plain base-16 numeral, which has more than two characters from 256. A negative value gives "0" + "-" + the digits of its magnitude. |
| Hex.FormatHexDecodes | e-ernest/src/utils/ErnestUtils.java:94-102 | every channel value 0..255 is written in exactly two digits, which read back to it |
| Hex.HexValueAppend | e-ernest/src/utils/ErnestUtils.java:89 | reading concatenated digits shifts the first part by a power of sixteen |
| Hex.Red | e-ernest/src/utils/ErnestUtils.java:85 | the red channel, bits 16 to 23, is in 0..255 |
| Hex.Green | e-ernest/src/utils/ErnestUtils.java:86 | the green channel, bits 8 to 15, is in 0..255 |
| Hex.Blue | e-ernest/src/utils/ErnestUtils.java:87 | the blue channel, bits 0 to 7, is in 0..255 |
| Hex.ChannelsOfLow24 | e-ernest/src/utils/ErnestUtils.java:83-92 | the three channels are the base-256 digits of the low 24 bits |
| Hex.HexColor | e-ernest/src/utils/ErnestUtils.java:83-92 | hexColor is always six upper-case hexadecimal digits |
| Hex.HexColorLow24 | e-ernest/src/utils/ErnestUtils.java:83-92 | hexColor ignores every bit above the low 24 |
| Hex.HexColorDecodes | e-ernest/src/utils/ErnestUtils.java:83-92 | reading the six digits in base 16 gives back the low 24 bits of the value |
| Hex.HexColorInjective | e-ernest/src/utils/ErnestUtils.java:83-92 | two values give the same colour string exactly when their low 24 bits agree |
| WorkingMemory.Add | e-ernest/src/ernest/AttentionalSystem.java:181-182 | adding an act unless present keeps the list's order, adds nothing else and creates no duplicate |
| WorkingMemory.AppendNewSpec | e-ernest/src/ernest/AttentionalSystem.java:177-184 | addContextList keeps the list at the front, gains exactly the missing acts of the argument, and creates no duplicate |
| WorkingMemory.AppendNewPresent | e-ernest/src/ernest/AttentionalSystem.java:177-184 | adding acts that are all present changes nothing |
| WorkingMemory.AppendNewIdempotent | e-ernest/src/ernest/AttentionalSystem.java:177-184 | adding the same acts twice is the same as adding them once |
| WorkingMemory.AddActivationSpec | e-ernest/src/ernest/AttentionalSystem.java:191-200 | addActivationAct ignores null. Otherwise the act ends up in both the context list and the activation list, which keep their order and gain no duplicate. |
| WorkingMemory.ActivationSeed | e-ernest/src/ernest/AttentionalSystem.java:219-229 | the activation list rebuilt by shiftDecisionCycle has no duplicate |
| WorkingMemory.ShiftSpec | e-ernest/src/ernest/AttentionalSystem.java:211-232 | shiftDecisionCycle makes the old context list the base context list. The activation list starts with the enacted act, holds the performed act and the enacted composite's intention, and nothing else. The context list is the activation list followed by the new acts of the stream list. |
| WorkingMemory.ShiftSeed | e-ernest/src/ernest/AttentionalSystem.java:211-232 | shiftDecisionCycle seeds the activation list and the new context list with the same acts: the enacted act, the performed act when it is another act, then the intention act |
| Attention.SetLink | e-ernest/src/ernest/AttentionalSystem.java:390-391 | setting an act's prescriber schema and activation keeps the control fields coherent |
| Attention.SetPointer | e-ernest/src/ernest/AttentionalSystem.java:401 | setting a schema's pointer keeps the control fields coherent |
| Attention.NextState | e-ernest/src/ernest/AttentionalSystem.java:385-422 | nextAct keeps the control fields coherent and returns null or an act in the arena |
| Attention.NextActTop | e-ernest/src/ernest/AttentionalSystem.java:385-393 | without a prescriber schema, nextAct clears the act and returns null |
| Attention.NextActAdvance | e-ernest/src/ernest/AttentionalSystem.java:395-404 | on a match at pointer 0, the prescriber moves to pointer 1. Its intention act, which is returned, gets that prescriber and the act's activation. Nothing else changes but the cleared act. |
| Attention.NextActClimb | e-ernest/src/ernest/AttentionalSystem.java:405-418 | on a match at pointer 1, nextAct continues at the prescriber act with the succeeding act; on a mismatch, with the failing act |
| Attention.NextActResult | e-ernest/src/ernest/AttentionalSystem.java:385-422 | whatever the depth of the climb, a returned act is the intention act of a schema now at pointer 1, which is its prescriber schema |
| Attention.NextActClears | e-ernest/src/ernest/AttentionalSystem.java:389-391 | the act nextAct was called on is left cleared unless it is the one returned |
| Attention.NextActKeeps | e-ernest/src/ernest/AttentionalSystem.java:385-422 | acts of lower schemas than the one climbed from are untouched unless returned |
| Attention.Descent | e-ernest/src/ernest/AttentionalSystem.java:459-477 | spreadActivation descends from the act through context acts, within the arena |
| Attention.DescentShape | e-ernest/src/ernest/AttentionalSystem.java:459-477 | every act of the descent below the first has a lower schema, and the last act's schema is primitive |
| Attention.DescentStep | e-ernest/src/ernest/AttentionalSystem.java:469-472 | each act of the descent before the last has a composite schema whose context act is the next act |
| Attention.SpreadLevel | e-ernest/src/ernest/AttentionalSystem.java:468-473 | one level of spreadActivation keeps the arena sizes |
| Attention.SpreadState | e-ernest/src/ernest/AttentionalSystem.java:459-477 | spreadActivation keeps the arena sizes and returns an act in the arena |
| Attention.SpreadResult | e-ernest/src/ernest/AttentionalSystem.java:459-477 | spreadActivation returns the last act of the descent, the primitive act at its bottom |
| Attention.SpreadAt | e-ernest/src/ernest/AttentionalSystem.java:462-473 | after spreadActivation, each act of the descent is its schema's prescriber act. Each schema but the last is at pointer 0. Each act below the first has the schema above it as prescriber schema and the first act's activation. |
| Attention.SpreadAbove | e-ernest/src/ernest/AttentionalSystem.java:459-477 | spreadActivation leaves acts and schemas above the starting act untouched |
| Attention.SpreadOffActs | e-ernest/src/ernest/AttentionalSystem.java:459-477 | spreadActivation leaves every act off the descent untouched |
| Attention.SpreadOffSchemas | e-ernest/src/ernest/AttentionalSystem.java:459-477 | spreadActivation leaves every schema off the descent untouched |
| Attention.SpreadCoherent | e-ernest/src/ernest/AttentionalSystem.java:459-477 | spreadActivation keeps the control fields coherent |
| Selection.TiedRun | e-ernest/src/ernest/AttentionalSystem.java:436-443 | the counted run is no longer than the list |
| Selection.TiedRunSpec | e-ernest/src/ernest/AttentionalSystem.java:436-443 | the count is exactly the leading acts with the first act's activation: all acts before it have it, and the act that ends it does not |
| Selection.SelectAct | e-ernest/src/ernest/AttentionalSystem.java:430-451 | the loop's count and pick are those of the function Selected |
| Selection.TiedPositive | e-ernest/src/ernest/AttentionalSystem.java:436-443 | the count is at least one (the first act) and at most the list length |
| Selection.SelectedIsTied | e-ernest/src/ernest/AttentionalSystem.java:436-450 | the selected act is one of the leading tied acts and has the first act's activation |
| Selection.TiedIsReachable | e-ernest/src/ernest/AttentionalSystem.java:448 | every act of the tied run is selected by some random draw |
| Selection.SelectedIsHighest | e-ernest/src/ernest/AttentionalSystem.java:430-451 | on a list sorted by descending activation, the selected act has the highest activation, and every act after the tied run has a strictly lower one |
| Selection.SelectionExample | e-ernest/src/ernest/AttentionalSystem.java:430-451 | with activations 5, 5 and 3, the first two are tied and reachable and the third is never selected |
| Learning.LearningFromContext | e-ernest/src/ernest/AttentionalSystem.java:285-300 | learning always starts by recording the performed act on the context list. Every context-list record is of the performed act, or of the enacted act when it differs. |
| Learning.SecondPassGate | e-ernest/src/ernest/AttentionalSystem.java:297-309 | a second record on the context list happens if and only if the enacted act is not the performed act |
| Learning.CascadeGate | e-ernest/src/ernest/AttentionalSystem.java:288-308 | a record on the base context list happens exactly for a non-empty stream list whose first act's weight is strictly above ACTIVATION_THRESH, and it records that act |
| Attentional.IntentionOf | e-ernest/src/ernest/AttentionalSystem.java:227-228 | an act has an intention to add exactly when its schema is composite, and it is in the arena |
| Attentional.Resume | e-ernest/src/ernest/AttentionalSystem.java:247-258 | following up keeps the control fields coherent and yields null or an act in the arena |
| Attentional.Decided | e-ernest/src/ernest/AttentionalSystem.java:324-328 | the decided intention is always set after a step unless it was never set and an intention is still ongoing |
| Attentional.AttentionalSystem.constructor | e-ernest/src/ernest/AttentionalSystem.java:34-54 | the lists start empty and there is no intention yet, as the field initialisers leave them |
| Attentional.AttentionalSystem.AddContextList | e-ernest/src/ernest/AttentionalSystem.java:177-184 | the loop leaves the context list as AppendNew of the old one and the argument, and changes nothing else |
| Attentional.AttentionalSystem.AddActivationAct | e-ernest/src/ernest/AttentionalSystem.java:191-200 | the two lists become AddActivation of the old ones, and nothing else changes |
| Attentional.AttentionalSystem.ShiftDecisionCycle | e-ernest/src/ernest/AttentionalSystem.java:211-232 | the three lists become Shift of the old context list, the enacted and performed acts, the enacted composite's intention and the stream list |
| Attentional.AttentionalSystem.NextAct | e-ernest/src/ernest/AttentionalSystem.java:385-422 | the control fields and the act returned are NextState's; the lists are unchanged |
| Attentional.AttentionalSystem.SpreadActivation | e-ernest/src/ernest/AttentionalSystem.java:459-477 | the control fields and the act returned are SpreadState's; the lists are unchanged |
| Attentional.AttentionalSystem.Learn | e-ernest/src/ernest/AttentionalSystem.java:262-315 | the performed act is the enacted one when it belongs to the intended schema, the failing act otherwise. The records made are LearningCalls, in order. The lists are shifted. |
| Attentional.AttentionalSystem.FollowUp | e-ernest/src/ernest/AttentionalSystem.java:247-258 | nextAct runs on the primitive intention only when there is one |
| Attentional.AttentionalSystem.Enact | e-ernest/src/ernest/AttentionalSystem.java:333-341 | the intention is spread to its primitive act, which becomes the primitive intention. The schema returned is that act's, and it is primitive. |
| Attentional.AttentionalSystem.Step | e-ernest/src/ernest/AttentionalSystem.java:238-343 | learning and shifting happen exactly when there was a primitive intention, an enacted act and no ongoing intention; otherwise the lists and records are untouched. A new intention is taken from episodic memory exactly when none is ongoing. The control fields and primitive intention are those of spreading the ongoing or new intention. The returned schema is primitive. |

## Left out

- `enactedAct` (AttentionalSystem.java:352-377) and the episodic-memory calls `record`, `selectAct`, `addFailingInteraction` and `addCompositeInteraction` are not part of this model: their answers come in as `Attentional.Answers`. The arena of acts and schemas (`Attention.Memory`) is fixed for the object's whole life, so three things follow. Acts and schemas that learning creates are not added to it. The changes learning makes to existing schemas (succeeding act, failing act, weight) are not reflected in the `nextAct` calls of later steps. And every act a step's answers name must already be in the arena (`Attentional.AnswersFit`).
- The weights that the cascade compares are part of the answers (`Learning.Pass.weight`). The value of `Ernest.ACTIVATION_THRESH` is not part of this model; it is a constant of the class.
- `resetLearnCount`, `getLearnCount`, `getStatus`, the internal-state string and all tracing and console output are left out, because they affect no state that the model keeps.
- `tick`, the landmarks, the water and food tanks, and `getInternalState` are left out. They belong to the homeostatic extension of the agent, not to the decision core.
- `Random.nextInt(count)` becomes an injected draw taken modulo the count. Every tied index is reachable (`Selection.TiedIsReachable`).
- Selection.SelectAct: the `Collections.sort` at its start is left out, because `IAct.compareTo` is not part of this model. The list is taken in the order the sort leaves it, and `Selection.SelectedIsHighest` states the outcome for a list in descending activation.
- Proposition.ActProposition.AddWeight: does not model 32-bit wrap-around of the weight. The same holds for the sums of values in `Acts.GetValue` and `Acts.NewComposite`.
- Hex.Red, Hex.Green and Hex.Blue compute the bit masks arithmetically, as floor division and remainder on the two's-complement value. This agrees with Java's `&` and `/` for every 32-bit value.
- The model assumes that IAct and ISchema equality is identity, so acts and schemas are arena indexes. Their `equals` is not part of this model. `List.contains` in the working-memory lists calls it, and `step` compares acts and schemas with `==`.
- The eca version's call `PrimitiveImpl.createOrGetComposite` inside `createOrGetCompositeAct` (eca/ss/enaction/ActImpl.java:76) is left out. `PrimitiveImpl` is not part of this model, and the composite primitive it returns is stored but not used by the members modelled here. The area stored with a new composite (the post-act's area) is what `Acts.GetArea` computes.
- `getAct(Action, Observation)` of the imos2 version is left out. It looks up a primitive interaction by action and aspect in `PrimitiveImpl`, which is not part of this model, and then calls createOrGetPrimitiveAct, which is modelled.
- The two `ActImpl` versions share one model. Their registry and prescription code are the same, and the eca-only `getArea`, `getValue` and insertion-ordered `ACTS` are separate members. The insertion order is the arena order.
- Acts.ActId is unbounded. The static map is one registry object (`Registry.ActRegistry`), not a global.
- Aliasing of the list passed to `record` is not modelled: each record call logs the context list as it is at the call.
