/** Agent Cards and the detection of changes between them
    (internal/agentcard/change.go). */
module AgentCards {
  import opened Wrappers
  import opened Decimal

  datatype Capabilities = Capabilities(streaming: bool, pushNotifications: bool, stateTransitionHistory: bool)

  /** A card: the watched parts, and `rest` for all that is not compared. */
  datatype Card = Card(name: string, description: string, url: string, version: string,
                       capabilities: Option<Capabilities>, securitySchemes: map<string, string>,
                       skills: seq<string>, rest: string)

  datatype Change = Change(field: string, oldValue: string, newValue: string, critical: bool)

  /** The compared parts of a card, in the order they are compared. */
  datatype Field = Url | Version | Name | Description | SkillCount | SchemeCount | CapabilitySet

  const FIELDS := [Url, Version, Name, Description, SkillCount, SchemeCount, CapabilitySet]

  function BoolText(b: bool): string {
    if b then "true" else "false"
  }

  function FlagsString(h1: string, h2: string, h3: string, c: Capabilities): string {
    h1 + BoolText(c.streaming) + h2 + BoolText(c.pushNotifications) + h3 + BoolText(c.stateTransitionHistory)
  }

  function CapabilitiesString(caps: Option<Capabilities>): string {
    match caps
    case None => "<nil>"
    case Some(c) =>
      FlagsString("streaming=", ",push=", ",history=", c)
  }

  function FieldName(f: Field): string {
    match f
    case Url => "url"
    case Version => "version"
    case Name => "name"
    case Description => "description"
    case SkillCount => "skills"
    case SchemeCount => "securitySchemes"
    case CapabilitySet => "capabilities"
  }

  /** The text of a field as a change reports it. */
  function FieldText(c: Card, f: Field): string {
    match f
    case Url => c.url
    case Version => c.version
    case Name => c.name
    case Description => c.description
    case SkillCount => NatDigits(|c.skills|) + " skills"
    case SchemeCount => NatDigits(|c.securitySchemes|) + " schemes"
    case CapabilitySet => CapabilitiesString(c.capabilities)
  }

  /** The comparison the code makes: counts as numbers, the rest as text. */
  predicate Differs(o: Card, n: Card, f: Field) {
    match f
    case SkillCount => |o.skills| != |n.skills|
    case SchemeCount => |o.securitySchemes| != |n.securitySchemes|
    case _ => FieldText(o, f) != FieldText(n, f)
  }

  /** More than half of the skills came or went; from none, any skill is more. */
  predicate SkillsJump(o: nat, n: nat) {
    if o > 0 then 2 * (if n > o then n - o else o - n) > o else n > 0
  }

  predicate IsCritical(o: Card, n: Card, f: Field) {
    match f
    case Url | Version | SchemeCount => true
    case SkillCount => SkillsJump(|o.skills|, |n.skills|)
    case Name | Description | CapabilitySet => false
  }

  function ChangeOf(o: Card, n: Card, f: Field): Change {
    Change(FieldName(f), FieldText(o, f), FieldText(n, f), IsCritical(o, n, f))
  }

  function Compare(o: Card, n: Card, fields: seq<Field>): seq<Change> {
    if fields == [] then []
    else
      var front, last := fields[..|fields| - 1], fields[|fields| - 1];
      Compare(o, n, front) + if Differs(o, n, last) then [ChangeOf(o, n, last)] else []
  }

  function DetectChanges(oldCard: Option<Card>, newCard: Option<Card>): seq<Change> {
    if oldCard.None? || newCard.None? then [] else Compare(oldCard.value, newCard.value, FIELDS)
  }

  predicate HasCriticalChanges(changes: seq<Change>) {
    exists i :: 0 <= i < |changes| && changes[i].critical
  }

  /** What change detection looks at. */
  datatype Watched = Watched(url: string, version: string, name: string, description: string,
                             skills: nat, schemes: nat, capabilities: Option<Capabilities>)

  function WatchedPart(c: Card): Watched {
    Watched(c.url, c.version, c.name, c.description, |c.skills|, |c.securitySchemes|, c.capabilities)
  }

  lemma SameTail(s: string, t: string, tail: string)
    requires s + tail == t + tail
    ensures s == t
  {
    assert |s| == |t|;
    assert s == (s + tail)[..|s|] && t == (t + tail)[..|t|];
  }

  /** The text ends "true" or "false", and the letter fourth from its end says
      which. */
  lemma LastFlag(s: string, t: string, a: bool, b: bool)
    requires s + BoolText(a) == t + BoolText(b)
    ensures s == t && a == b
  {
    var all := s + BoolText(a);
    assert all[|all| - 4] == BoolText(a)[|BoolText(a)| - 4];
    assert all[|all| - 4] == BoolText(b)[|BoolText(b)| - 4];
    assert a == b;
    SameTail(s, t, BoolText(a));
  }

  lemma ThreeFlags(h1: string, h2: string, h3: string, a: Capabilities, b: Capabilities)
    requires FlagsString(h1, h2, h3, a) == FlagsString(h1, h2, h3, b)
    ensures a == b
  {
    var a1, b1 := h1 + BoolText(a.streaming), h1 + BoolText(b.streaming);
    var a2, b2 := a1 + h2 + BoolText(a.pushNotifications), b1 + h2 + BoolText(b.pushNotifications);
    LastFlag(a2 + h3, b2 + h3, a.stateTransitionHistory, b.stateTransitionHistory);
    SameTail(a2, b2, h3);
    LastFlag(a1 + h2, b1 + h2, a.pushNotifications, b.pushNotifications);
    SameTail(a1, b1, h2);
    LastFlag(h1, h1, a.streaming, b.streaming);
  }

  lemma CapabilitiesStringInjective(a: Option<Capabilities>, b: Option<Capabilities>)
    ensures CapabilitiesString(a) == CapabilitiesString(b) <==> a == b
  {
    if a.Some? && b.Some? {
      if CapabilitiesString(a) == CapabilitiesString(b) {
        ThreeFlags("streaming=", ",push=", ",history=", a.value, b.value);
      }
    } else if a != b {
      assert CapabilitiesString(a)[0] != CapabilitiesString(b)[0];
    }
  }

  lemma CountTextInjective(a: nat, b: nat, suffix: string)
    ensures NatDigits(a) + suffix == NatDigits(b) + suffix <==> a == b
  {
    if NatDigits(a) + suffix == NatDigits(b) + suffix {
      assert |NatDigits(a)| == |NatDigits(b)|;
      assert NatDigits(a) == (NatDigits(a) + suffix)[..|NatDigits(a)|] == NatDigits(b);
      NatDigitsCanonical(a);
      NatDigitsCanonical(b);
    }
  }

  /** A field differs exactly when the two texts reported for it do. */
  lemma DiffersIsTextDiffers(o: Card, n: Card, f: Field)
    ensures Differs(o, n, f) <==> FieldText(o, f) != FieldText(n, f)
  {
    CountTextInjective(|o.skills|, |n.skills|, " skills");
    CountTextInjective(|o.securitySchemes|, |n.securitySchemes|, " schemes");
  }

  lemma {:induction false} CompareContains(o: Card, n: Card, fields: seq<Field>, c: Change)
    ensures c in Compare(o, n, fields) <==> exists f :: f in fields && Differs(o, n, f) && c == ChangeOf(o, n, f)
  {
    if fields != [] {
      var front, last := fields[..|fields| - 1], fields[|fields| - 1];
      CompareContains(o, n, front, c);
      assert fields == front + [last];
    }
  }

  lemma AllFields(f: Field)
    ensures f in FIELDS
  {
    assert FIELDS[0] == Url && FIELDS[1] == Version && FIELDS[2] == Name && FIELDS[3] == Description;
    assert FIELDS[4] == SkillCount && FIELDS[5] == SchemeCount && FIELDS[6] == CapabilitySet;
  }

  /** The reported changes are exactly the fields whose texts differ, each with
      its old text, its new text and its weight. */
  lemma ReportsExactlyTheDifferences(o: Card, n: Card, c: Change)
    ensures c in DetectChanges(Some(o), Some(n)) <==>
      exists f :: FieldText(o, f) != FieldText(n, f) && c == ChangeOf(o, n, f)
  {
    CompareContains(o, n, FIELDS, c);
    forall f
      ensures f in FIELDS && (Differs(o, n, f) <==> FieldText(o, f) != FieldText(n, f))
    {
      AllFields(f);
      DiffersIsTextDiffers(o, n, f);
    }
  }

  /** No change is reported exactly when the watched parts are equal, so
      "unchanged" is an equivalence. Skill and scheme contents are not watched. */
  lemma UnchangedIsWatchedEquality(o: Card, n: Card)
    ensures DetectChanges(Some(o), Some(n)) == [] <==> WatchedPart(o) == WatchedPart(n)
  {
    var cs := DetectChanges(Some(o), Some(n));
    NothingDiffers(o, n);
    forall f
      ensures Differs(o, n, f) ==> ChangeOf(o, n, f) in cs
    {
      AllFields(f);
      CompareContains(o, n, FIELDS, ChangeOf(o, n, f));
    }
    if cs != [] {
      CompareContains(o, n, FIELDS, cs[0]);
    }
  }

  lemma NothingDiffers(o: Card, n: Card)
    ensures (forall f :: !Differs(o, n, f)) <==> WatchedPart(o) == WatchedPart(n)
  {
    CapabilitiesStringInjective(o.capabilities, n.capabilities);
    if forall f :: !Differs(o, n, f) {
      assert !Differs(o, n, Url) && !Differs(o, n, Version) && !Differs(o, n, Name) && !Differs(o, n, Description);
      assert !Differs(o, n, SkillCount) && !Differs(o, n, SchemeCount) && !Differs(o, n, CapabilitySet);
    }
  }

  /** A card that differs in one watched part only is reported as that one change:
      its name, the old text, the new text, and its weight. */
  lemma OneTextChanged(c: Card, x: string)
    ensures x != c.url ==> DetectChanges(Some(c), Some(c.(url := x))) == [Change("url", c.url, x, true)]
    ensures x != c.version ==> DetectChanges(Some(c), Some(c.(version := x))) == [Change("version", c.version, x, true)]
    ensures x != c.name ==> DetectChanges(Some(c), Some(c.(name := x))) == [Change("name", c.name, x, false)]
    ensures x != c.description ==>
      DetectChanges(Some(c), Some(c.(description := x))) == [Change("description", c.description, x, false)]
  {
    OnlyDifference(c, c.(url := x), Url);
    OnlyDifference(c, c.(version := x), Version);
    OnlyDifference(c, c.(name := x), Name);
    OnlyDifference(c, c.(description := x), Description);
  }

  lemma OneCountChanged(c: Card, skills: seq<string>, schemes: map<string, string>, caps: Option<Capabilities>)
    ensures var o, n := |c.skills|, |skills|; n != o ==>
      DetectChanges(Some(c), Some(c.(skills := skills)))
        == [Change("skills", NatDigits(o) + " skills", NatDigits(n) + " skills",
                   if o == 0 then n > 0 else 2 * (n - o) > o || 2 * (o - n) > o)]
    ensures var o, n := |c.securitySchemes|, |schemes|; n != o ==>
      DetectChanges(Some(c), Some(c.(securitySchemes := schemes)))
        == [Change("securitySchemes", NatDigits(o) + " schemes", NatDigits(n) + " schemes", true)]
    ensures caps != c.capabilities ==>
      DetectChanges(Some(c), Some(c.(capabilities := caps)))
        == [Change("capabilities", CapabilitiesString(c.capabilities), CapabilitiesString(caps), false)]
  {
    OnlyDifference(c, c.(skills := skills), SkillCount);
    OnlyDifference(c, c.(securitySchemes := schemes), SchemeCount);
    OnlyDifference(c, c.(capabilities := caps), CapabilitySet);
    CapabilitiesStringInjective(c.capabilities, caps);
  }

  lemma OnlyDifference(o: Card, n: Card, f: Field)
    requires forall g :: g != f ==> !Differs(o, n, g)
    ensures DetectChanges(Some(o), Some(n)) == if Differs(o, n, f) then [ChangeOf(o, n, f)] else []
  {
    FieldsOnce(f);
    OnlyOneReported(o, n, f, FIELDS);
  }

  /** How often a field is among the first of the list. */
  function Occurrences(fields: seq<Field>, f: Field): nat {
    if fields == [] then 0
    else Occurrences(fields[..|fields| - 1], f) + if fields[|fields| - 1] == f then 1 else 0
  }

  lemma OneMoreField(fields: seq<Field>, g: Field, f: Field)
    ensures Occurrences(fields + [g], f) == Occurrences(fields, f) + if g == f then 1 else 0
  {
    assert (fields + [g])[..|fields|] == fields;
  }

  lemma FieldsOnce(f: Field)
    ensures Occurrences(FIELDS, f) == 1
  {
    var none: seq<Field> := [];
    OneMoreField(none, Url, f);
    OneMoreField(none + [Url], Version, f);
    OneMoreField(none + [Url] + [Version], Name, f);
    OneMoreField(none + [Url] + [Version] + [Name], Description, f);
    var four := none + [Url] + [Version] + [Name] + [Description];
    OneMoreField(four, SkillCount, f);
    OneMoreField(four + [SkillCount], SchemeCount, f);
    OneMoreField(four + [SkillCount] + [SchemeCount], CapabilitySet, f);
    assert FIELDS == four + [SkillCount] + [SchemeCount] + [CapabilitySet];
  }

  lemma {:induction false} OnlyOneReported(o: Card, n: Card, f: Field, fields: seq<Field>)
    requires Occurrences(fields, f) <= 1 && forall g :: g != f ==> !Differs(o, n, g)
    ensures Compare(o, n, fields) ==
      if Occurrences(fields, f) == 1 && Differs(o, n, f) then [ChangeOf(o, n, f)] else []
  {
    if fields != [] {
      OnlyOneReported(o, n, f, fields[..|fields| - 1]);
    }
  }

  lemma OneMoreCompared(o: Card, n: Card, fields: seq<Field>, f: Field)
    ensures Compare(o, n, fields + [f]) == Compare(o, n, fields) + if Differs(o, n, f) then [ChangeOf(o, n, f)] else []
  {
    assert (fields + [f])[..|fields|] == fields;
  }

  /** When all of them changed they are reported in this order. */
  lemma AllChangedInOrder(o: Card, n: Card)
    requires forall f :: Differs(o, n, f)
    ensures DetectChanges(Some(o), Some(n)) ==
      [ChangeOf(o, n, Url)] + [ChangeOf(o, n, Version)] + [ChangeOf(o, n, Name)] + [ChangeOf(o, n, Description)]
      + [ChangeOf(o, n, SkillCount)] + [ChangeOf(o, n, SchemeCount)]
      + [ChangeOf(o, n, CapabilitySet)]
  {
    var none: seq<Field> := [];
    OneMoreCompared(o, n, none, Url);
    OneMoreCompared(o, n, none + [Url], Version);
    OneMoreCompared(o, n, none + [Url] + [Version], Name);
    OneMoreCompared(o, n, none + [Url] + [Version] + [Name], Description);
    var four := none + [Url] + [Version] + [Name] + [Description];
    OneMoreCompared(o, n, four, SkillCount);
    OneMoreCompared(o, n, four + [SkillCount], SchemeCount);
    OneMoreCompared(o, n, four + [SkillCount] + [SchemeCount], CapabilitySet);
    assert FIELDS == four + [SkillCount] + [SchemeCount] + [CapabilitySet];
    assert [] + [ChangeOf(o, n, Url)] == [ChangeOf(o, n, Url)];
  }

  /** The summary names each flag. */
  lemma FlagsNamed()
    ensures CapabilitiesString(Some(Capabilities(true, false, false)))
         == "streaming=" + "true" + ",push=" + "false" + ",history=" + "false"
    ensures CapabilitiesString(Some(Capabilities(false, true, false)))
         == "streaming=" + "false" + ",push=" + "true" + ",history=" + "false"
    ensures CapabilitiesString(Some(Capabilities(false, false, true)))
         == "streaming=" + "false" + ",push=" + "false" + ",history=" + "true"
  {
  }

  /** A change set is critical exactly when the address, the version or the
      number of security schemes changed, or the number of skills jumped. */
  lemma CriticalExactlyWhen(o: Card, n: Card)
    ensures HasCriticalChanges(DetectChanges(Some(o), Some(n))) <==>
      || o.url != n.url || o.version != n.version || |o.securitySchemes| != |n.securitySchemes|
      || (if |o.skills| == 0 then |n.skills| > 0
          else 2 * (|n.skills| - |o.skills|) > |o.skills| || 2 * (|o.skills| - |n.skills|) > |o.skills|)
  {
    var cs := DetectChanges(Some(o), Some(n));
    forall f
      ensures Differs(o, n, f) && IsCritical(o, n, f) ==> HasCriticalChanges(cs)
    {
      AllFields(f);
      CompareContains(o, n, FIELDS, ChangeOf(o, n, f));
      if Differs(o, n, f) && IsCritical(o, n, f) {
        assert ChangeOf(o, n, f) in cs;
      }
    }
    if HasCriticalChanges(cs) {
      var i :| 0 <= i < |cs| && cs[i].critical;
      CompareContains(o, n, FIELDS, cs[i]);
    } else {
      assert !Differs(o, n, Url) || !IsCritical(o, n, Url);
      assert !Differs(o, n, Version) || !IsCritical(o, n, Version);
      assert !Differs(o, n, SchemeCount) || !IsCritical(o, n, SchemeCount);
      assert !Differs(o, n, SkillCount) || !IsCritical(o, n, SkillCount);
    }
  }
}
