/**
 * The flags of `profiles update` as a patch: a section for each group of flags of which one is
 * given; the settings common to all directions are kept apart from one block's protections.
 */
module FlagPatches {
  import opened Wrappers
  import opened Json
  import opened JsonPaths
  import opened ProfileLayout
  import opened SettingsMerge
  import opened Policies
  import opened PolicyMerges

  /** A key, and its value when its flag is given. */
  type Entry = (string, Option<Value>)

  datatype Flags = Flags(
    promptInjection: Option<string>,
    toxicContent: Option<string>,
    contextualGrounding: Option<string>,
    maliciousCode: Option<string>,
    urlAction: Option<string>,
    allowUrlCategories: Option<seq<string>>,
    blockUrlCategories: Option<seq<string>>,
    alertUrlCategories: Option<seq<string>>,
    agentSecurity: Option<string>,
    dlpAction: Option<string>,
    dlpProfilesGiven: bool,
    dlpProfiles: Option<seq<string>>,
    maskDataInline: Option<bool>,
    dbCreate: Option<string>,
    dbRead: Option<string>,
    dbUpdate: Option<string>,
    dbDelete: Option<string>,
    inlineTimeoutAction: Option<string>,
    maxInlineLatency: Option<string>,
    latencyGiven: bool,
    maskDataInStorage: Option<bool>,
    enableFullConversationInspection: Option<bool>)

  /** Whether the command has anything to patch. */
  predicate AnyProtection(flags: Flags) {
    || flags.promptInjection.Some? || flags.toxicContent.Some? || flags.contextualGrounding.Some?
    || flags.maliciousCode.Some? || flags.urlAction.Some?
    || flags.allowUrlCategories.Some? || flags.blockUrlCategories.Some? || flags.alertUrlCategories.Some?
    || flags.agentSecurity.Some? || flags.dlpAction.Some? || flags.dlpProfilesGiven || flags.maskDataInline.Some?
    || flags.dbCreate.Some? || flags.dbRead.Some? || flags.dbUpdate.Some? || flags.dbDelete.Some?
    || flags.inlineTimeoutAction.Some? || flags.latencyGiven
    || flags.maskDataInStorage.Some? || flags.enableFullConversationInspection.Some?
  }

  // ---------------------------------------------------------------- the sections

  /** The fields that are given, inserted in order. */
  function Filled(entries: seq<Entry>): Fields {
    if entries == [] then map[]
    else
      var (key, value) := entries[|entries| - 1];
      var before := Filled(entries[..|entries| - 1]);
      if value.Some? then before[key := value.value] else before
  }

  function Text(value: Option<string>): Option<Value> {
    if value.Some? then Some(String(value.value)) else None
  }

  function Flag(value: Option<bool>): Option<Value> {
    if value.Some? then Some(Bool(value.value)) else None
  }

  function Count(value: Option<string>): Option<Value> {
    if value.Some? then Some(Number(value.value)) else None
  }

  function Section(fields: Fields): Option<Value> {
    if fields == map[] then None else Some(Object(fields))
  }

  function List(items: seq<Value>): Option<Value> {
    if items == [] then None else Some(Array(items))
  }

  /** The item of one detector, when its flag is given. */
  function Detector(name: string, action: Option<string>): seq<Value> {
    if action.Some? then [Object(map[NAME := String(name), "action" := String(action.value)])] else []
  }

  /** A bare action is spelled out for both severities. */
  function ToxicAction(action: string): string {
    if ':' in action then action else "high:" + action + ", moderate:" + action
  }

  function ModelItems(flags: Flags): seq<Value> {
    Detector("prompt-injection", flags.promptInjection)
    + Detector("toxic-content",
        if flags.toxicContent.Some? then Some(ToxicAction(flags.toxicContent.value)) else None)
    + Detector("contextual-grounding", flags.contextualGrounding)
  }

  function DatabaseItems(flags: Flags): seq<Value> {
    Detector("database-security-create", flags.dbCreate) + Detector("database-security-read", flags.dbRead)
    + Detector("database-security-update", flags.dbUpdate) + Detector("database-security-delete", flags.dbDelete)
  }

  function Members(names: Option<seq<string>>): Option<Value> {
    if names.None? then None
    else
      var n := |names.value|;
      Some(Object(map["member" := Array(seq(n, i requires 0 <= i < n => String(names.value[i])))]))
  }

  /** The malicious-code item, without its `name`. */
  function MaliciousCode(action: Option<string>): Option<Value> {
    if action.Some? then Some(Object(map["action" := String(action.value)])) else None
  }

  function AppEntries(flags: Flags): seq<Entry> {
    [ (MALICIOUS_PROTECTION, MaliciousCode(flags.maliciousCode)),
      ("url-detected-action", Text(flags.urlAction)),
      ("allow-url-category", Members(flags.allowUrlCategories)),
      ("block-url-category", Members(flags.blockUrlCategories)),
      ("alert-url-category", Members(flags.alertUrlCategories)) ]
  }

  function AppProtection(flags: Flags): Fields {
    Filled(AppEntries(flags))
  }

  function Profiles(names: Option<seq<string>>): Option<Value> {
    if names.None? then None
    else
      var n := |names.value|;
      Some(Array(seq(n, i requires 0 <= i < n => Object(map["text" := String(names.value[i])]))))
  }

  function LeakEntries(flags: Flags): seq<Entry> {
    [ ("action", Text(flags.dlpAction)),
      ("member", Profiles(flags.dlpProfiles)),
      ("mask-data-inline", Flag(flags.maskDataInline)) ]
  }

  function LeakDetection(flags: Flags): Option<Value> {
    if flags.dlpAction.None? && !flags.dlpProfilesGiven && flags.maskDataInline.None? then None
    else Some(Object(Filled(LeakEntries(flags))))
  }

  function DataEntries(flags: Flags): seq<Entry> {
    [ ("data-leak-detection", LeakDetection(flags)),
      ("database-security", List(DatabaseItems(flags))) ]
  }

  function DataProtection(flags: Flags): Fields {
    Filled(DataEntries(flags))
  }

  function LatencyEntries(flags: Flags): seq<Entry> {
    [ ("inline-timeout-action", Text(flags.inlineTimeoutAction)),
      ("max-inline-latency", Count(flags.maxInlineLatency)) ]
  }

  function Latency(flags: Flags): Fields {
    Filled(LatencyEntries(flags))
  }

  function ProtectionEntries(flags: Flags): seq<Entry> {
    [ ("model-protection", List(ModelItems(flags))),
      ("app-protection", Section(AppProtection(flags))),
      ("agent-protection", List(Detector("agent-security", flags.agentSecurity))),
      ("data-protection", Section(DataProtection(flags))) ]
  }

  /** The protection sections of one block. */
  function Protections(flags: Flags): Fields {
    Filled(ProtectionEntries(flags))
  }

  function SharedEntries(flags: Flags): seq<Entry> {
    [ ("latency", Section(Latency(flags))),
      ("mask-data-in-storage", Flag(flags.maskDataInStorage)),
      ("enable-full-conversation-inspection", Flag(flags.enableFullConversationInspection)) ]
  }

  /** The settings shared by all directions. */
  function SharedSettings(flags: Flags): Fields {
    Filled(SharedEntries(flags))
  }

  /** The whole configuration: the protections, then the shared settings. */
  function Configuration(flags: Flags): Fields {
    Protections(flags) + SharedSettings(flags)
  }

  /** The patch, unless the flags ask for no change. */
  function NewPatch(flags: Flags, direction: Option<string>): Option<Patch> {
    if !AnyProtection(flags) then None
    else
      var (protection, shared) := ExtractShared(Configuration(flags));
      Some(Patch(protection, shared, direction))
  }

  // ---------------------------------------------------------------- what the flags build

  /** An entry that keeps a patch flat. */
  predicate FlatEntry(entry: Entry) {
    entry.1.Some? ==>
      && (entry.1.value.Array? && IsNamedArray(entry.0) ==> FlatItems(entry.1.value.items))
      && (entry.1.value.Object? ==> FlatPatch(entry.1.value.fields))
  }

  predicate HasKey(entries: seq<Entry>, key: string) {
    exists i | 0 <= i < |entries| :: entries[i].0 == key
  }

  lemma {:induction false} FilledIsFlat(entries: seq<Entry>)
    requires forall i | 0 <= i < |entries| :: FlatEntry(entries[i])
    ensures FlatPatch(Filled(entries))
    ensures forall key | key in Filled(entries) :: HasKey(entries, key)
  {
    if entries != [] {
      var init := entries[..|entries| - 1];
      FilledIsFlat(init);
      assert entries == init + [entries[|entries| - 1]];
      forall key | key in Filled(entries)
        ensures HasKey(entries, key)
      {
        if HasKey(init, key) {
          var i :| 0 <= i < |init| && init[i].0 == key;
          assert entries[i].0 == key;
        }
      }
    }
  }

  lemma FlatDetectors(flags: Flags)
    ensures FlatItems(ModelItems(flags)) && FlatItems(DatabaseItems(flags))
    ensures FlatItems(Detector("agent-security", flags.agentSecurity))
  {
  }

  lemma FlatMembers(names: Option<seq<string>>)
    ensures FlatEntry(("", Members(names)))
  {
  }

  lemma FlatApp(flags: Flags)
    ensures FlatPatch(AppProtection(flags))
  {
    FlatMembers(flags.allowUrlCategories);
    FlatMembers(flags.blockUrlCategories);
    FlatMembers(flags.alertUrlCategories);
    FilledIsFlat(AppEntries(flags));
  }

  lemma FlatData(flags: Flags)
    ensures FlatPatch(DataProtection(flags))
  {
    FlatDetectors(flags);
    FilledIsFlat(LeakEntries(flags));
    FilledIsFlat(DataEntries(flags));
  }

  lemma FlatLatency(flags: Flags)
    ensures FlatPatch(Latency(flags))
  {
    FilledIsFlat(LatencyEntries(flags));
  }

  lemma FlatSections(flags: Flags)
    ensures FlatPatch(AppProtection(flags)) && FlatPatch(DataProtection(flags)) && FlatPatch(Latency(flags))
  {
    FlatApp(flags);
    FlatData(flags);
    FlatLatency(flags);
  }

  lemma FlatProtectionEntries(flags: Flags)
    ensures forall i | 0 <= i < |ProtectionEntries(flags)| :: FlatEntry(ProtectionEntries(flags)[i])
  {
    FlatDetectors(flags);
    FlatSections(flags);
  }

  lemma ProtectionKeys(flags: Flags, key: string)
    ensures HasKey(ProtectionEntries(flags), key) ==> key !in SHARED_KEYS
  {
  }

  lemma FlatProtections(flags: Flags)
    ensures FlatPatch(Protections(flags)) && Protections(flags).Keys !! SHARED_KEYS
  {
    FlatProtectionEntries(flags);
    FilledIsFlat(ProtectionEntries(flags));
    forall key | key in Protections(flags)
      ensures key !in SHARED_KEYS
    {
      ProtectionKeys(flags, key);
    }
  }

  lemma FlatShared(flags: Flags)
    ensures FlatPatch(SharedSettings(flags)) && SharedSettings(flags).Keys <= SHARED_KEYS
  {
    FlatSections(flags);
    FilledIsFlat(SharedEntries(flags));
  }

  /** Every patch of flags is flat, and takes exactly the shared settings apart. */
  lemma FlagsMakePatches(flags: Flags, direction: Option<string>)
    requires AnyProtection(flags)
    ensures NewPatch(flags, direction) == Some(Patch(Protections(flags), SharedSettings(flags), direction))
    ensures FromFlags(NewPatch(flags, direction).value)
  {
    FlatProtections(flags);
    FlatShared(flags);
    var (protection, shared) := ExtractShared(Configuration(flags));
    assert protection == Protections(flags);
    assert shared == SharedSettings(flags);
  }

  /** Whatever the policy and the flags, an update that succeeds can be repeated without effect. */
  lemma UpdateIsIdempotent(existing: Option<Value>, flags: Flags, direction: Option<string>, selector: Selector)
    requires AnyProtection(flags) && MergePolicy(existing, NewPatch(flags, direction), selector).Ok?
    ensures var after := MergePolicy(existing, NewPatch(flags, direction), selector).value;
            MergePolicy(Some(Object(after)), NewPatch(flags, direction), selector) == Ok(after)
  {
    FlagsMakePatches(flags, direction);
    UpdateTwice(existing, NewPatch(flags, direction).value, selector);
  }

  // ---------------------------------------------------------------- what each flag puts where

  predicate TextAt(document: Fields, path: seq<string>, flag: Option<string>) {
    Follow(Some(Object(document)), path) == if flag.Some? then Some(String(flag.value)) else None
  }

  predicate BoolAt(document: Fields, path: seq<string>, flag: Option<bool>) {
    Follow(Some(Object(document)), path) == if flag.Some? then Some(Bool(flag.value)) else None
  }

  predicate NumberAt(document: Fields, path: seq<string>, flag: Option<string>) {
    Follow(Some(Object(document)), path) == if flag.Some? then Some(Number(flag.value)) else None
  }

  /** Each name is under the key, alone there. */
  predicate ListedAt(value: Option<Value>, names: Option<seq<string>>, key: Option<string>) {
    match names
    case None => value == None
    case Some(texts) =>
      && value == Some(Array(ItemsIn(value))) && |ItemsIn(value)| == |texts|
      && forall i | 0 <= i < |texts| ::
           ItemsIn(value)[i] == if key.Some? then Object(map[key.value := String(texts[i])]) else String(texts[i])
  }

  predicate MembersAt(document: Fields, path: seq<string>, names: Option<seq<string>>) {
    var found := Follow(Some(Object(document)), path);
    if names.None? then found == None
    else found == Some(Object(map["member" := Array(ItemsIn(Inside(found, "member")))]))
         && ListedAt(Inside(found, "member"), names, None)
  }

  /** The detectors that are given, in this order. */
  function Given(wanted: seq<(string, Option<string>)>): seq<Value> {
    if wanted == [] then []
    else
      var (name, action) := wanted[0];
      (if action.Some? then [Object(map["name" := String(name), "action" := String(action.value)])] else [])
      + Given(wanted[1..])
  }

  predicate DetectorsAt(document: Fields, path: seq<string>, wanted: seq<(string, Option<string>)>) {
    Follow(Some(Object(document)), path) == if Given(wanted) == [] then None else Some(Array(Given(wanted)))
  }

  /** An object with no other keys, and with some. */
  predicate KeysAt(document: Fields, path: seq<string>, keys: set<string>) {
    match Follow(Some(Object(document)), path)
    case Some(Object(fields)) => fields != map[] && fields.Keys <= keys
    case Some(_) => false
    case None => true
  }

  predicate Distinct(entries: seq<Entry>) {
    forall i, j | 0 <= i < j < |entries| :: entries[i].0 != entries[j].0
  }

  /** Fields filled from entries have each of them where it is given, and nothing else. */
  ghost predicate HoldsJust(fields: Fields, entries: seq<Entry>) {
    && (forall i | 0 <= i < |entries| :: Inside(Some(Object(fields)), entries[i].0) == entries[i].1)
    && (forall key | key in fields :: HasKey(entries, key))
  }

  lemma HasKeyMore(init: seq<Entry>, last: Entry, key: string)
    ensures HasKey(init + [last], key) <==> HasKey(init, key) || key == last.0
  {
    var all := init + [last];
    if i :| 0 <= i < |init| && init[i].0 == key {
      assert all[i].0 == key;
    }
    assert all[|init|].0 == last.0;
  }

  lemma {:induction false} FilledHolds(entries: seq<Entry>)
    requires Distinct(entries)
    ensures HoldsJust(Filled(entries), entries)
  {
    if entries != [] {
      var init, last := entries[..|entries| - 1], entries[|entries| - 1];
      FilledHolds(init);
      assert entries == init + [last];
      OneMoreHolds(Filled(init), init, last);
    }
  }

  lemma OneMoreHolds(fields: Fields, init: seq<Entry>, last: Entry)
    requires HoldsJust(fields, init) && Distinct(init + [last])
    ensures HoldsJust(if last.1.Some? then fields[last.0 := last.1.value] else fields, init + [last])
  {
    var after, all := if last.1.Some? then fields[last.0 := last.1.value] else fields, init + [last];
    assert forall i | 0 <= i < |init| :: all[i] == init[i] && all[i].0 != all[|init|].0;
    assert last.0 !in fields;
    forall key | key in after
      ensures HasKey(all, key)
    {
      HasKeyMore(init, last, key);
    }
  }

  lemma TwoGiven(a: (string, Option<string>), b: (string, Option<string>))
    ensures Given([a]) == Detector(a.0, a.1)
    ensures Given([a, b]) == Detector(a.0, a.1) + Detector(b.0, b.1)
  {
    assert [a][1..] == [] && [a, b][1..] == [b] && [b][1..] == [];
  }

  lemma ThreeGiven(a: (string, Option<string>), b: (string, Option<string>), c: (string, Option<string>))
    ensures Given([a, b, c]) == Detector(a.0, a.1) + Detector(b.0, b.1) + Detector(c.0, c.1)
  {
    assert [a, b, c][1..] == [b, c];
    TwoGiven(b, c);
  }

  lemma FourGiven(a: (string, Option<string>), b: (string, Option<string>), c: (string, Option<string>),
                  d: (string, Option<string>))
    ensures Given([a, b, c, d]) == Detector(a.0, a.1) + Detector(b.0, b.1) + Detector(c.0, c.1) + Detector(d.0, d.1)
  {
    assert [a, b, c, d][1..] == [b, c, d];
    ThreeGiven(b, c, d);
  }

  /** A bare toxicity action stands for both severities. */
  function BothSeverities(action: Option<string>): Option<string> {
    match action
    case None => None
    case Some(text) => if ':' in text then action else Some("high:" + text + ", moderate:" + text)
  }

  /** The value of an entry, and that of an entry of a section. */
  lemma ValueAt(document: Fields, entries: seq<Entry>, i: nat)
    requires i < |entries| && HoldsJust(document, entries)
    ensures Follow(Some(Object(document)), [entries[i].0]) == entries[i].1
  {
    ShortPaths(Some(Object(document)), entries[i].0, "", "");
  }

  lemma FieldAt(document: Fields, section: string, fields: Fields, entries: seq<Entry>, i: nat)
    requires i < |entries| && HoldsJust(fields, entries)
    requires Follow(Some(Object(document)), [section]) == Section(fields)
    ensures Follow(Some(Object(document)), [section, entries[i].0]) == entries[i].1
  {
    ShortPaths(Some(Object(document)), section, entries[i].0, "");
  }

  lemma SectionKeys(document: Fields, section: string, fields: Fields, entries: seq<Entry>, keys: set<string>)
    requires HoldsJust(fields, entries) && (forall i | 0 <= i < |entries| :: entries[i].0 in keys)
    requires Follow(Some(Object(document)), [section]) == Section(fields)
    ensures KeysAt(document, [section], keys)
  {
  }

  // Each section of the protections, by literal path.

  predicate ModelFlags(p: Fields, flags: Flags) {
    && DetectorsAt(p, ["model-protection"],
         [ ("prompt-injection", flags.promptInjection),
           ("toxic-content", BothSeverities(flags.toxicContent)),
           ("contextual-grounding", flags.contextualGrounding) ])
    && DetectorsAt(p, ["agent-protection"], [("agent-security", flags.agentSecurity)])
  }

  predicate AppFlags(p: Fields, flags: Flags) {
    && KeysAt(p, ["app-protection"],
         { "malicious-code-protection", "url-detected-action",
           "allow-url-category", "block-url-category", "alert-url-category" })
    && KeysAt(p, ["app-protection", "malicious-code-protection"], {"action"})
    && TextAt(p, ["app-protection", "malicious-code-protection", "action"], flags.maliciousCode)
    && TextAt(p, ["app-protection", "url-detected-action"], flags.urlAction)
    && MembersAt(p, ["app-protection", "allow-url-category"], flags.allowUrlCategories)
    && MembersAt(p, ["app-protection", "block-url-category"], flags.blockUrlCategories)
    && MembersAt(p, ["app-protection", "alert-url-category"], flags.alertUrlCategories)
  }

  predicate DataFlags(p: Fields, flags: Flags) {
    && KeysAt(p, ["data-protection"], {"data-leak-detection", "database-security"})
    && DetectorsAt(p, ["data-protection", "database-security"],
         [ ("database-security-create", flags.dbCreate), ("database-security-read", flags.dbRead),
           ("database-security-update", flags.dbUpdate), ("database-security-delete", flags.dbDelete) ])
  }

  /** An object for any of its flags, even without a field. */
  predicate LeakFlags(p: Fields, flags: Flags) {
    var leak := Follow(Some(Object(p)), ["data-protection", "data-leak-detection"]);
    && (leak.Some? <==> flags.dlpAction.Some? || flags.dlpProfilesGiven || flags.maskDataInline.Some?)
    && (leak.Some? ==>
          && leak.value.Object? && leak.value.fields.Keys <= {"action", "member", "mask-data-inline"}
          && TextAt(leak.value.fields, ["action"], flags.dlpAction)
          && BoolAt(leak.value.fields, ["mask-data-inline"], flags.maskDataInline)
          && ListedAt(Follow(leak, ["member"]), flags.dlpProfiles, Some("text")))
  }

  predicate SharedFlags(s: Fields, flags: Flags) {
    && s.Keys <= {"latency", "mask-data-in-storage", "enable-full-conversation-inspection"}
    && KeysAt(s, ["latency"], {"inline-timeout-action", "max-inline-latency"})
    && TextAt(s, ["latency", "inline-timeout-action"], flags.inlineTimeoutAction)
    && NumberAt(s, ["latency", "max-inline-latency"], flags.maxInlineLatency)
    && BoolAt(s, ["mask-data-in-storage"], flags.maskDataInStorage)
    && BoolAt(s, ["enable-full-conversation-inspection"], flags.enableFullConversationInspection)
  }

  lemma ProtectionsHold(flags: Flags)
    ensures HoldsJust(Protections(flags), ProtectionEntries(flags))
    ensures Protections(flags).Keys <= {"model-protection", "app-protection", "agent-protection", "data-protection"}
  {
    FilledHolds(ProtectionEntries(flags));
  }

  lemma ModelAt(flags: Flags)
    requires HoldsJust(Protections(flags), ProtectionEntries(flags))
    ensures ModelFlags(Protections(flags), flags)
  {
    ModelDetectors(flags);
    ValueAt(Protections(flags), ProtectionEntries(flags), 0);
    ValueAt(Protections(flags), ProtectionEntries(flags), 2);
    TwoGiven(("agent-security", flags.agentSecurity), ("", None));
  }

  lemma ModelDetectors(flags: Flags)
    ensures ModelItems(flags) ==
            Given([ ("prompt-injection", flags.promptInjection),
                    ("toxic-content", BothSeverities(flags.toxicContent)),
                    ("contextual-grounding", flags.contextualGrounding) ])
  {
    ThreeGiven(("prompt-injection", flags.promptInjection), ("toxic-content", BothSeverities(flags.toxicContent)),
               ("contextual-grounding", flags.contextualGrounding));
  }

  lemma MembersAre(document: Fields, path: seq<string>, names: Option<seq<string>>)
    requires Follow(Some(Object(document)), path) == Members(names)
    ensures MembersAt(document, path, names)
  {
  }

  lemma AppAt(flags: Flags)
    requires HoldsJust(Protections(flags), ProtectionEntries(flags))
    ensures AppFlags(Protections(flags), flags)
  {
    var p := Protections(flags);
    ValueAt(p, ProtectionEntries(flags), 1);
    FilledHolds(AppEntries(flags));
    AppKeys(p, flags);
    AppActions(p, flags);
    AppMembers(p, flags);
  }

  lemma AppKeys(p: Fields, flags: Flags)
    requires HoldsJust(AppProtection(flags), AppEntries(flags))
    requires Follow(Some(Object(p)), ["app-protection"]) == Section(AppProtection(flags))
    ensures KeysAt(p, ["app-protection"],
              { "malicious-code-protection", "url-detected-action",
                "allow-url-category", "block-url-category", "alert-url-category" })
  {
    SectionKeys(p, "app-protection", AppProtection(flags), AppEntries(flags),
      { "malicious-code-protection", "url-detected-action",
        "allow-url-category", "block-url-category", "alert-url-category" });
  }

  lemma AppActions(p: Fields, flags: Flags)
    requires HoldsJust(AppProtection(flags), AppEntries(flags))
    requires Follow(Some(Object(p)), ["app-protection"]) == Section(AppProtection(flags))
    ensures KeysAt(p, ["app-protection", "malicious-code-protection"], {"action"})
    ensures TextAt(p, ["app-protection", "malicious-code-protection", "action"], flags.maliciousCode)
    ensures TextAt(p, ["app-protection", "url-detected-action"], flags.urlAction)
  {
    FieldAt(p, "app-protection", AppProtection(flags), AppEntries(flags), 0);
    FieldAt(p, "app-protection", AppProtection(flags), AppEntries(flags), 1);
    ShortPaths(Some(Object(p)), "app-protection", "malicious-code-protection", "action");
  }

  lemma AppMembers(p: Fields, flags: Flags)
    requires HoldsJust(AppProtection(flags), AppEntries(flags))
    requires Follow(Some(Object(p)), ["app-protection"]) == Section(AppProtection(flags))
    ensures MembersAt(p, ["app-protection", "allow-url-category"], flags.allowUrlCategories)
    ensures MembersAt(p, ["app-protection", "block-url-category"], flags.blockUrlCategories)
    ensures MembersAt(p, ["app-protection", "alert-url-category"], flags.alertUrlCategories)
  {
    FieldAt(p, "app-protection", AppProtection(flags), AppEntries(flags), 2);
    FieldAt(p, "app-protection", AppProtection(flags), AppEntries(flags), 3);
    FieldAt(p, "app-protection", AppProtection(flags), AppEntries(flags), 4);
    MembersAre(p, ["app-protection", "allow-url-category"], flags.allowUrlCategories);
    MembersAre(p, ["app-protection", "block-url-category"], flags.blockUrlCategories);
    MembersAre(p, ["app-protection", "alert-url-category"], flags.alertUrlCategories);
  }

  lemma DataAt(flags: Flags)
    requires HoldsJust(Protections(flags), ProtectionEntries(flags))
    ensures DataFlags(Protections(flags), flags)
    ensures Follow(Some(Object(Protections(flags))), ["data-protection", "data-leak-detection"]) == LeakDetection(flags)
  {
    var p, entries := Protections(flags), DataEntries(flags);
    ValueAt(p, ProtectionEntries(flags), 3);
    FilledHolds(entries);
    SectionKeys(p, "data-protection", DataProtection(flags), entries, {"data-leak-detection", "database-security"});
    FieldAt(p, "data-protection", DataProtection(flags), entries, 0);
    FieldAt(p, "data-protection", DataProtection(flags), entries, 1);
    FourGiven(("database-security-create", flags.dbCreate), ("database-security-read", flags.dbRead),
              ("database-security-update", flags.dbUpdate), ("database-security-delete", flags.dbDelete));
  }

  lemma LeakAt(flags: Flags)
    requires Follow(Some(Object(Protections(flags))), ["data-protection", "data-leak-detection"])
             == LeakDetection(flags)
    ensures LeakFlags(Protections(flags), flags)
  {
    var entries := LeakEntries(flags);
    FilledHolds(entries);
    ValueAt(Filled(entries), entries, 0);
    ValueAt(Filled(entries), entries, 1);
    ValueAt(Filled(entries), entries, 2);
  }

  lemma SharedAt(flags: Flags)
    ensures SharedFlags(SharedSettings(flags), flags)
  {
    var s, latency := SharedSettings(flags), LatencyEntries(flags);
    FilledHolds(SharedEntries(flags));
    ValueAt(s, SharedEntries(flags), 0);
    ValueAt(s, SharedEntries(flags), 1);
    ValueAt(s, SharedEntries(flags), 2);
    FilledHolds(latency);
    SectionKeys(s, "latency", Latency(flags), latency, {"inline-timeout-action", "max-inline-latency"});
    FieldAt(s, "latency", Latency(flags), latency, 0);
    FieldAt(s, "latency", Latency(flags), latency, 1);
  }

  /** Each flag puts its value at its own path of the patch's protections or of its shared
      settings, and nothing else is there. */
  lemma FlagsAtPaths(flags: Flags, direction: Option<string>)
    requires AnyProtection(flags)
    ensures NewPatch(flags, direction).Some? && NewPatch(flags, direction).value.direction == direction
    ensures var p := NewPatch(flags, direction).value.protection;
            && p.Keys <= {"model-protection", "app-protection", "agent-protection", "data-protection"}
            && ModelFlags(p, flags) && AppFlags(p, flags) && DataFlags(p, flags) && LeakFlags(p, flags)
    ensures SharedFlags(NewPatch(flags, direction).value.shared, flags)
  {
    FlagsMakePatches(flags, direction);
    ProtectionsHold(flags);
    ModelAt(flags);
    AppAt(flags);
    DataAt(flags);
    LeakAt(flags);
    SharedAt(flags);
  }

  lemma NothingFilled(entries: seq<Entry>)
    requires Distinct(entries)
    ensures Filled(entries) == map[] <==> forall i | 0 <= i < |entries| :: entries[i].1.None?
  {
    FilledHolds(entries);
    if Filled(entries) != map[] {
      var key :| key in Filled(entries);
      var i :| 0 <= i < |entries| && entries[i].0 == key;
    }
    if Filled(entries) == map[] {
      assert forall i | 0 <= i < |entries| :: Inside(Some(Object(Filled(entries))), entries[i].0) == entries[i].1;
    }
  }

  lemma AppFilled(flags: Flags)
    ensures AppProtection(flags) != map[] <==>
            || flags.maliciousCode.Some? || flags.urlAction.Some? || flags.allowUrlCategories.Some?
            || flags.blockUrlCategories.Some? || flags.alertUrlCategories.Some?
  {
    NothingFilled(AppEntries(flags));
    var app := AppEntries(flags);
    assert app[0].1.None? && app[1].1.None? && app[2].1.None? && app[3].1.None? && app[4].1.None? <==>
           forall i | 0 <= i < |app| :: app[i].1.None?;
  }

  lemma DataFilled(flags: Flags)
    ensures DataProtection(flags) != map[] <==>
            || flags.dlpAction.Some? || flags.dlpProfilesGiven || flags.maskDataInline.Some?
            || flags.dbCreate.Some? || flags.dbRead.Some? || flags.dbUpdate.Some? || flags.dbDelete.Some?
  {
    NothingFilled(DataEntries(flags));
    var data := DataEntries(flags);
    assert data[0].1.None? && data[1].1.None? <==> forall i | 0 <= i < |data| :: data[i].1.None?;
  }

  lemma ProtectionsFilled(flags: Flags)
    ensures Protections(flags) != map[] <==>
            || ModelItems(flags) != [] || AppProtection(flags) != map[]
            || flags.agentSecurity.Some? || DataProtection(flags) != map[]
  {
    NothingFilled(ProtectionEntries(flags));
    var all := ProtectionEntries(flags);
    assert all[0].1.None? && all[1].1.None? && all[2].1.None? && all[3].1.None? <==>
           forall i | 0 <= i < |all| :: all[i].1.None?;
  }

  lemma SharedFilled(flags: Flags)
    ensures SharedSettings(flags) != map[] <==>
            || flags.inlineTimeoutAction.Some? || flags.maxInlineLatency.Some?
            || flags.maskDataInStorage.Some? || flags.enableFullConversationInspection.Some?
  {
    NothingFilled(SharedEntries(flags));
    NothingFilled(LatencyEntries(flags));
    var all, latency := SharedEntries(flags), LatencyEntries(flags);
    assert all[0].1.None? && all[1].1.None? && all[2].1.None? <==> forall i | 0 <= i < |all| :: all[i].1.None?;
    assert latency[0].1.None? && latency[1].1.None? <==> forall i | 0 <= i < |latency| :: latency[i].1.None?;
  }

  /** A command has a patch exactly when its flags fill something (a latency that is given is a
      number, as the command checks before). */
  lemma AnyProtectionExactly(flags: Flags, direction: Option<string>)
    requires flags.latencyGiven <==> flags.maxInlineLatency.Some?
    ensures AnyProtection(flags) <==> Protections(flags) != map[] || SharedSettings(flags) != map[]
    ensures NewPatch(flags, direction).Some? <==> Protections(flags) != map[] || SharedSettings(flags) != map[]
  {
    ProtectionsFilled(flags);
    AppFilled(flags);
    DataFilled(flags);
    SharedFilled(flags);
  }

  // ---------------------------------------------------------------- when an update is refused

  predicate IsScalar(value: Value) {
    !value.Array? && !value.Object?
  }

  /** A value with no array or object inside its object. */
  predicate Shallow(value: Value) {
    && !value.Array?
    && (value.Object? ==> forall key | key in value.fields :: IsScalar(value.fields[key]))
  }

  lemma {:induction false} FilledIsShallow(entries: seq<Entry>)
    requires forall i | 0 <= i < |entries| :: entries[i].1.Some? ==> Shallow(entries[i].1.value)
    ensures forall key | key in Filled(entries) :: Shallow(Filled(entries)[key])
  {
    if entries != [] {
      FilledIsShallow(entries[..|entries| - 1]);
    }
  }

  lemma {:induction false} FilledIsScalar(entries: seq<Entry>)
    requires forall i | 0 <= i < |entries| :: entries[i].1.Some? ==> IsScalar(entries[i].1.value)
    ensures forall key | key in Filled(entries) :: IsScalar(Filled(entries)[key])
  {
    if entries != [] {
      FilledIsScalar(entries[..|entries| - 1]);
    }
  }

  /** The shared settings merge into anything. */
  lemma SharedNeverRefused(base: Fields, flags: Flags)
    ensures Merge(base, SharedSettings(flags)).Some?
  {
    FilledIsScalar(LatencyEntries(flags));
    FilledIsShallow(SharedEntries(flags));
    FlatShared(flags);
    RefusedExactly(base, SharedSettings(flags));
  }

  /** What the protection step of an update asks for. */
  predicate ProtectionFits(before: Fields, index: nat, toward: Option<string>, protection: Fields) {
    toward.Some? || protection != map[] ==>
      && HasEntry(before, index)
      && LayoutRefusal(EntryAt(before, index), toward, protection == map[]) == None
      && !Ambiguous(BlockAt(before, Place(index, toward)), protection)
  }

  lemma ProtectionRefusedExactly(before: Fields, index: nat, toward: Option<string>, protection: Fields)
    requires HasEntry(before, index) && FlatPatch(protection)
    ensures MergeProtection(before, index, toward, protection).Ok?
            <==> ProtectionFits(before, index, toward, protection)
  {
    RefusedExactly(BlockAt(before, Place(index, toward)), protection);
  }

  /**
   * An update succeeds exactly when an entry is selected, the block's layout allows the edit and
   * no detector the flags name occurs twice in the array it reaches. The shared settings alone
   * are never refused.
   */
  lemma UpdateSucceedsExactly(existing: Option<Value>, flags: Flags, direction: Option<string>, selector: Selector)
    requires AnyProtection(flags)
    ensures MergePolicy(existing, NewPatch(flags, direction), selector).Ok? <==>
            match SelectAiProfile(AsPolicy(existing), selector)
            case Err(_) => false
            case Ok((before, index)) =>
              ProtectionFits(before, index, Or(direction, selector.direction), Protections(flags))
  {
    FlagsMakePatches(flags, direction);
    if SelectAiProfile(AsPolicy(existing), selector).Ok? {
      SelectedEntry(AsPolicy(existing), selector);
      var (before, index) := SelectAiProfile(AsPolicy(existing), selector).value;
      var toward := Or(direction, selector.direction);
      FlatProtections(flags);
      ProtectionRefusedExactly(before, index, toward, Protections(flags));
      if MergeProtection(before, index, toward, Protections(flags)).Ok? {
        ProtectionSays(before, index, toward, Protections(flags));
        var middle := MergeProtection(before, index, toward, Protections(flags)).value;
        SharedNeverRefused(BlockOrEmpty(EntryAt(middle, index), None), flags);
      }
    }
  }

  lemma {:induction false} FilledHas(entries: seq<Entry>, at: nat)
    requires at < |entries| && entries[at].1.Some?
    requires forall i | at < i < |entries| :: entries[i].0 != entries[at].0
    ensures entries[at].0 in Filled(entries) && Filled(entries)[entries[at].0] == entries[at].1.value
  {
    if at < |entries| - 1 {
      FilledHas(entries[..|entries| - 1], at);
    }
  }

  lemma AppProtectionHas(flags: Flags)
    requires flags.maliciousCode.Some?
    ensures MALICIOUS_PROTECTION in AppProtection(flags)
    ensures AppProtection(flags)[MALICIOUS_PROTECTION] == Object(map["action" := String(flags.maliciousCode.value)])
    ensures "app-protection" in Protections(flags)
    ensures Protections(flags)["app-protection"] == Object(AppProtection(flags))
  {
    FilledHas(AppEntries(flags), 0);
    FilledHas(ProtectionEntries(flags), 1);
  }

  /** The malicious-code item of a block, `{}` when it has none. */
  function MaliciousCodeOf(block: Fields): Fields {
    ObjectAt(ObjectAt(block, "app-protection"), MALICIOUS_PROTECTION)
  }

  lemma MaliciousCodeMerged(block: Fields, flags: Flags)
    requires flags.maliciousCode.Some? && Merge(block, Protections(flags)).Some?
    ensures MaliciousCodeOf(Merge(block, Protections(flags)).value) ==
            Named(MALICIOUS_PROTECTION, MaliciousCodeOf(block) + map["action" := String(flags.maliciousCode.value)])
  {
    var item := map["action" := String(flags.maliciousCode.value)];
    var app := AppProtection(flags);
    AppProtectionHas(flags);
    assert FlatItem(Object(item));
    FlatMerge(MaliciousCodeOf(block), Object(item));
    ObjectMerged(block, Protections(flags), "app-protection");
    ObjectMerged(ObjectAt(block, "app-protection"), app, MALICIOUS_PROTECTION);
  }

  lemma NamedOverlay(was: Fields, action: Value)
    ensures var now := Named(MALICIOUS_PROTECTION, was + map["action" := action]);
            && NAME in now && now[NAME] == (if NAME in was then was[NAME] else String("malicious-code"))
            && now - {NAME} == (was - {NAME})["action" := action]
  {
  }

  /** The malicious-code item keeps the name it had, whatever it was, or gets the default one;
      of its other fields only the action changes. */
  lemma MaliciousCodeKeepsItsName(block: Fields, flags: Flags)
    requires flags.maliciousCode.Some? && Merge(block, Protections(flags)).Some?
    ensures var was, now := MaliciousCodeOf(block), MaliciousCodeOf(Merge(block, Protections(flags)).value);
            && NAME in now && now[NAME] == (if NAME in was then was[NAME] else String("malicious-code"))
            && now - {NAME} == (was - {NAME})["action" := String(flags.maliciousCode.value)]
  {
    MaliciousCodeMerged(block, flags);
    NamedOverlay(MaliciousCodeOf(block), String(flags.maliciousCode.value));
  }

  /** The object at a patched key is the old one merged with the patch's. */
  lemma ObjectMerged(base: Fields, patch: Fields, key: string)
    requires key in patch && patch[key].Object? && Merge(base, patch).Some?
    ensures Merge(ObjectAt(base, key), patch[key].fields).Some?
    ensures ObjectAt(Merge(base, patch).value, key) == Named(key, Merge(ObjectAt(base, key), patch[key].fields).value)
  {
    assert MergeValue(base, key, patch[key]).Some?;
  }
}
