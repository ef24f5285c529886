/**
  How providers are grouped (packages/cli/src/platforms.ts): every provider that
  is observed, known or not, falls into one group, and the catalog built from
  the groups partitions models and integrations.
 */
module Platforms {
  import opened Wrappers
  import opened Memory

  // ---------- identifiers ----------

  /** What JavaScript's `trim` removes. */
  predicate IsTrimmed(c: char) {
    IsBlank(c) && c != '\U{0085}'
  }

  function TrimStart(s: string): string {
    if s != "" && IsTrimmed(s[0]) then TrimStart(s[1..]) else s
  }

  function TrimEnd(s: string): string {
    if s != "" && IsTrimmed(s[|s| - 1]) then TrimEnd(s[..|s| - 1]) else s
  }

  function NormalizeProviderId(value: string): string {
    ToLower(TrimEnd(TrimStart(value)))
  }

  ghost predicate Clean(s: string) {
    s == "" || (!IsTrimmed(s[0]) && !IsTrimmed(s[|s| - 1]))
  }

  lemma {:induction false} TrimStartClean(s: string)
    ensures TrimStart(s) == "" || !IsTrimmed(TrimStart(s)[0])
  {
    if s != "" && IsTrimmed(s[0]) {
      TrimStartClean(s[1..]);
    }
  }

  lemma {:induction false} TrimEndClean(s: string)
    requires s == "" || !IsTrimmed(s[0])
    ensures Clean(TrimEnd(s))
  {
    if s != "" && IsTrimmed(s[|s| - 1]) {
      TrimEndClean(s[..|s| - 1]);
    }
  }

  lemma CleanStays(s: string)
    requires Clean(s)
    ensures TrimEnd(TrimStart(s)) == s
  {
  }

  lemma NormalizeProviderIdIdempotent(value: string)
    ensures NormalizeProviderId(NormalizeProviderId(value)) == NormalizeProviderId(value)
  {
    TrimStartClean(value);
    TrimEndClean(TrimStart(value));
    var trimmed := TrimEnd(TrimStart(value));
    var lowered := ToLower(trimmed);
    assert Clean(lowered);
    CleanStays(lowered);
  }

  ghost predicate IsMargin(s: string) {
    forall i :: 0 <= i < |s| ==> IsTrimmed(s[i])
  }

  lemma {:induction false} TrimMargins(left: string, s: string, right: string)
    requires IsMargin(left) && IsMargin(right) && Clean(s)
    ensures TrimEnd(TrimStart(left + s + right)) == s
    decreases |left|, |right|
  {
    var whole := left + s + right;
    if left != "" {
      assert whole[0] == left[0] && whole[1..] == left[1..] + s + right;
      TrimMargins(left[1..], s, right);
    } else if s == "" {
      assert whole == right;
      TrimAll(right);
    } else {
      assert whole == s + right && TrimStart(whole) == whole;
      TrimRight(s, right);
    }
  }

  lemma {:induction false} TrimAll(margin: string)
    requires IsMargin(margin)
    ensures TrimStart(margin) == ""
  {
    if margin != "" {
      TrimAll(margin[1..]);
    }
  }

  lemma {:induction false} TrimRight(s: string, right: string)
    requires IsMargin(right) && s != "" && Clean(s)
    ensures TrimEnd(s + right) == s
    decreases |right|
  {
    if right == "" {
      assert s + right == s;
    } else {
      var last := |right| - 1;
      assert (s + right)[..|s + right| - 1] == s + right[..last];
      TrimRight(s, right[..last]);
    }
  }

  /**
    White space around an identifier is dropped and what remains is lower-cased; on
    ASCII that is the usual mapping.
   */
  lemma ProviderIdReads(left: string, s: string, right: string)
    requires IsMargin(left) && IsMargin(right) && Clean(s)
    ensures NormalizeProviderId(left + s + right) == ToLower(s)
    ensures IsAscii(s) ==> NormalizeProviderId(left + s + right) == AsciiLowerAll(s)
  {
    TrimMargins(left, s, right);
  }

  /** Identifiers that differ only in case and in the white space around them are the same provider. */
  lemma SameProviderIff(left: string, s: string, right: string, left': string, t: string, right': string)
    requires IsMargin(left) && IsMargin(right) && Clean(s)
    requires IsMargin(left') && IsMargin(right') && Clean(t)
    ensures SameProviderId(left + s + right, left' + t + right') <==> ToLower(s) == ToLower(t)
  {
    ProviderIdReads(left, s, right);
    ProviderIdReads(left', t, right');
  }

  /** JavaScript trims the white space of Rust and the byte order mark, but not the next-line character. */
  lemma TrimmedCharacters(c: char)
    ensures IsTrimmed(c) <==> (IsWhitespace(c) && c != '\U{0085}') || c == '\U{FEFF}'
  {
  }

  /** Lower-case letters and hyphens. */
  predicate Plain(s: string) {
    forall i :: 0 <= i < |s| ==> 'a' <= s[i] <= 'z' || s[i] == '-'
  }

  lemma PlainIsNormal(s: string)
    requires Plain(s)
    ensures NormalizeProviderId(s) == s
  {
    assert IsAscii(s) && AsciiLowerAll(s) == s;
    CleanStays(s);
  }

  // ---------- groups ----------

  /** A grouping rule; labels and descriptions are not modelled. */
  datatype Override = Override(id: string, integrationIds: seq<string>)

  const PROVIDER_OVERRIDES: seq<Override> := [
    Override("anthropic", []),
    Override("openai", ["openai", "azure", "azure-openai"]),
    Override("google", []),
    Override("opencode", []),
    Override("vertex", ["google-vertex", "google-vertex-anthropic", "vertex"])
  ]

  predicate Covers(rule: Override, normalized: string) {
    normalized == rule.id
    || exists i :: 0 <= i < |rule.integrationIds| && NormalizeProviderId(rule.integrationIds[i]) == normalized
  }

  /** The first rule, in table order, that covers the identifier. */
  function FirstRule(rules: seq<Override>, normalized: string): Option<Override> {
    if rules == [] then None
    else if Covers(rules[0], normalized) then Some(rules[0])
    else FirstRule(rules[1..], normalized)
  }

  function RuleFor(id: string): Option<Override> {
    FirstRule(PROVIDER_OVERRIDES, NormalizeProviderId(id))
  }

  function GroupFor(id: string): string {
    match RuleFor(id)
    case Some(rule) => rule.id
    case None => NormalizeProviderId(id)
  }

  /** The identifiers that the rule of a group lists besides its own. */
  function ListedIds(id: string): seq<string> {
    match RuleFor(id)
    case Some(rule) => rule.integrationIds
    case None => []
  }

  /** Four identifiers belong to another group; every other provider, known or not, is its own. */
  lemma GroupReads(id: string)
    ensures var normal := NormalizeProviderId(id);
            GroupFor(id) == if normal == "azure" || normal == "azure-openai" then "openai"
                            else if normal == "google-vertex" || normal == "google-vertex-anthropic" then "vertex"
                            else normal
  {
    hide NormalizeProviderId, FirstRule, Covers;
    var normal := NormalizeProviderId(id);
    GroupIsStable(id);
    if RuleFor(id).Some? {
      var k := GroupingRule(id);
      TableReads(k, normal);
    } else {
      NotGrouped(id);
    }
  }

  lemma TableReads(k: nat, id: string)
    requires k < |PROVIDER_OVERRIDES| && Lists(PROVIDER_OVERRIDES[k], id)
    ensures PROVIDER_OVERRIDES[k].id
         == if id == "azure" || id == "azure-openai" then "openai"
            else if id == "google-vertex" || id == "google-vertex-anthropic" then "vertex"
            else id
  {
    TableIsPlain(k, id);
    if k == 1 {
      assert id == "openai" || id == "azure" || id == "azure-openai";
    } else if k == 4 {
      assert id == "vertex" || id == "google-vertex" || id == "google-vertex-anthropic";
    }
  }

  lemma NotGrouped(id: string)
    requires RuleFor(id).None?
    ensures var normal := NormalizeProviderId(id);
            normal != "azure" && normal != "azure-openai" && normal != "google-vertex"
                && normal != "google-vertex-anthropic"
  {
    hide NormalizeProviderId, FirstRule;
    var normal := NormalizeProviderId(id);
    NoRule(PROVIDER_OVERRIDES, normal);
    CoversIsLists(1, normal);
    CoversIsLists(4, normal);
    assert "azure" == PROVIDER_OVERRIDES[1].integrationIds[1]
        && "azure-openai" == PROVIDER_OVERRIDES[1].integrationIds[2];
    assert "google-vertex" == PROVIDER_OVERRIDES[4].integrationIds[0]
        && "google-vertex-anthropic" == PROVIDER_OVERRIDES[4].integrationIds[1];
  }

  // ---------- descriptors ----------

  datatype Descriptor = Descriptor(id: string, integrationIds: seq<string>, modelCount: nat, integrationCount: nat)

  /** Normalised, without blanks, each once. */
  function UniqueIds(values: seq<string>): (ids: seq<string>)
    ensures forall x :: x in ids <==> x != "" && exists i :: 0 <= i < |values| && NormalizeProviderId(values[i]) == x
  {
    if values == [] then []
    else
      var last := |values| - 1;
      var before := UniqueIds(values[..last]);
      var id := NormalizeProviderId(values[last]);
      assert values == values[..last] + [values[last]];
      assert forall i :: 0 <= i < last ==> values[..last][i] == values[i];
      if id == "" || id in before then before else before + [id]
  }

  lemma {:induction false} UniqueIdsAreDistinct(values: seq<string>)
    ensures forall i, j :: 0 <= i < j < |UniqueIds(values)| ==> UniqueIds(values)[i] != UniqueIds(values)[j]
  {
    hide NormalizeProviderId;
    if values != [] {
      UniqueIdsAreDistinct(values[..|values| - 1]);
    }
  }

  predicate SameProviderId(left: string, right: string) {
    NormalizeProviderId(left) == NormalizeProviderId(right)
  }

  predicate MatchesAnyId(value: string, ids: seq<string>) {
    exists i :: 0 <= i < |ids| && SameProviderId(value, ids[i])
  }

  function DescriptorForId(id: string): Descriptor {
    Descriptor(GroupFor(id), UniqueIds([GroupFor(id)] + ListedIds(id)), 0, 0)
  }

  predicate MatchesDescriptor(providerId: string, descriptor: Descriptor) {
    MatchesAnyId(providerId, descriptor.integrationIds)
  }

  predicate MatchesProviderId(providerId: string, provider: string) {
    MatchesDescriptor(providerId, DescriptorForId(provider))
  }

  // ---------- the table ----------

  predicate Lists(rule: Override, id: string) {
    id == rule.id || id in rule.integrationIds
  }

  /** Where a listed identifier belongs, told by its length and first letter. */
  ghost function Home(id: string): nat {
    match |id|
    case 9 => 0
    case 5 => 1
    case 12 => 1
    case 8 => 3
    case 13 => 4
    case 23 => 4
    case _ => if |id| > 0 && id[0] == 'o' then 1 else if |id| > 0 && id[0] == 'g' then 2 else 4
  }

  lemma TableIsPlain(k: nat, id: string)
    requires k < |PROVIDER_OVERRIDES| && Lists(PROVIDER_OVERRIDES[k], id)
    ensures Plain(id) && id != "" && Home(id) == k
  {
    if k == 1 {
      OpenAiIds(id);
    } else if k == 4 {
      VertexIds(id);
    }
  }

  lemma OpenAiIds(id: string)
    requires Lists(PROVIDER_OVERRIDES[1], id)
    ensures Plain(id) && id != "" && Home(id) == 1
  {
    assert id == "openai" || id == "azure" || id == "azure-openai";
  }

  lemma VertexIds(id: string)
    requires Lists(PROVIDER_OVERRIDES[4], id)
    ensures Plain(id) && id != "" && Home(id) == 4
  {
    assert id == "vertex" || id == "google-vertex" || id == "google-vertex-anthropic";
  }

  lemma CoversIsLists(k: nat, id: string)
    requires k < |PROVIDER_OVERRIDES|
    ensures Covers(PROVIDER_OVERRIDES[k], id) <==> Lists(PROVIDER_OVERRIDES[k], id)
  {
    hide NormalizeProviderId;
    var rule := PROVIDER_OVERRIDES[k];
    forall i | 0 <= i < |rule.integrationIds|
      ensures NormalizeProviderId(rule.integrationIds[i]) == rule.integrationIds[i]
    {
      TableIsPlain(k, rule.integrationIds[i]);
      PlainIsNormal(rule.integrationIds[i]);
    }
  }

  lemma {:induction false} FirstRuleAt(rules: seq<Override>, id: string, k: nat)
    requires k < |rules| && Covers(rules[k], id) && forall j :: 0 <= j < k ==> !Covers(rules[j], id)
    ensures FirstRule(rules, id) == Some(rules[k])
  {
    hide Covers;
    if k > 0 {
      assert !Covers(rules[0], id);
      FirstRuleAt(rules[1..], id, k - 1);
    }
  }

  lemma {:induction false} NoRule(rules: seq<Override>, id: string)
    ensures match FirstRule(rules, id)
            case None => forall j :: 0 <= j < |rules| ==> !Covers(rules[j], id)
            case Some(rule) => exists k :: 0 <= k < |rules| && rules[k] == rule && Covers(rule, id)
  {
    hide Covers;
    if rules != [] && !Covers(rules[0], id) {
      NoRule(rules[1..], id);
      if FirstRule(rules[1..], id).Some? {
        var k :| 0 <= k < |rules[1..]| && rules[1..][k] == FirstRule(rules[1..], id).value
              && Covers(FirstRule(rules[1..], id).value, id);
        assert rules[k + 1] == rules[1..][k];
      }
    }
  }

  /** An identifier that a rule lists is grouped by that rule. */
  lemma ListedIsGrouped(k: nat, id: string)
    requires k < |PROVIDER_OVERRIDES| && Lists(PROVIDER_OVERRIDES[k], id)
    ensures NormalizeProviderId(id) == id && RuleFor(id) == Some(PROVIDER_OVERRIDES[k])
  {
    hide Covers, NormalizeProviderId;
    TableIsPlain(k, id);
    PlainIsNormal(id);
    CoversIsLists(k, id);
    forall j | 0 <= j < k ensures !Covers(PROVIDER_OVERRIDES[j], id) {
      CoversIsLists(j, id);
      if Lists(PROVIDER_OVERRIDES[j], id) {
        TableIsPlain(j, id);
      }
    }
    FirstRuleAt(PROVIDER_OVERRIDES, id, k);
  }

  // ---------- a descriptor matches its group ----------

  /** The rule that groups an identifier lists its normal form. */
  lemma GroupingRule(id: string) returns (k: nat)
    requires RuleFor(id).Some?
    ensures k < |PROVIDER_OVERRIDES| && PROVIDER_OVERRIDES[k] == RuleFor(id).value
    ensures Lists(PROVIDER_OVERRIDES[k], NormalizeProviderId(id))
  {
    hide Covers, NormalizeProviderId;
    NoRule(PROVIDER_OVERRIDES, NormalizeProviderId(id));
    k :| 0 <= k < |PROVIDER_OVERRIDES| && PROVIDER_OVERRIDES[k] == RuleFor(id).value
        && Covers(RuleFor(id).value, NormalizeProviderId(id));
    CoversIsLists(k, NormalizeProviderId(id));
  }

  /** A group is its own group, and grouping looks only at the normal form. */
  lemma GroupIsStable(id: string)
    ensures GroupFor(GroupFor(id)) == GroupFor(id) == GroupFor(NormalizeProviderId(id))
    ensures NormalizeProviderId(GroupFor(id)) == GroupFor(id)
    ensures ListedIds(GroupFor(id)) == ListedIds(id)
    ensures NormalizeProviderId(id) != "" ==> GroupFor(id) != ""
    ensures NormalizeProviderId(id) == "" ==> GroupFor(id) == "" && ListedIds(id) == []
  {
    hide Covers, NormalizeProviderId, FirstRule;
    NormalizeProviderIdIdempotent(id);
    if RuleFor(id).Some? {
      var k := GroupingRule(id);
      TableIsPlain(k, NormalizeProviderId(id));
      TableIsPlain(k, PROVIDER_OVERRIDES[k].id);
      ListedIsGrouped(k, PROVIDER_OVERRIDES[k].id);
    }
  }

  lemma ListedAreInGroup(id: string, i: nat)
    requires i < |ListedIds(id)|
    ensures GroupFor(ListedIds(id)[i]) == GroupFor(id) && NormalizeProviderId(ListedIds(id)[i]) == ListedIds(id)[i]
  {
    hide Covers, NormalizeProviderId, FirstRule;
    var k := GroupingRule(id);
    ListedIsGrouped(k, ListedIds(id)[i]);
  }

  /** Identifiers that, normalised, are all in one group. */
  ghost predicate InGroup(ids: seq<string>, group: string) {
    forall i :: 0 <= i < |ids| ==> NormalizeProviderId(ids[i]) != "" ==> GroupFor(ids[i]) == group
  }

  /**
    A descriptor's identifiers match exactly the providers of its group, whatever
    observed identifiers of that group are added to the listed ones.
   */
  lemma DescriptorMatchesGroup(id: string, sources: seq<string>, value: string)
    requires InGroup(sources, GroupFor(id))
    ensures MatchesAnyId(value, UniqueIds([GroupFor(id)] + ListedIds(id) + sources))
       <==> NormalizeProviderId(value) != "" && GroupFor(value) == GroupFor(id)
  {
    hide NormalizeProviderId, FirstRule, UniqueIds;
    var all := [GroupFor(id)] + ListedIds(id) + sources;
    var ids := UniqueIds(all);
    GroupIsStable(id);
    GroupIsStable(value);
    if MatchesAnyId(value, ids) {
      MatchIsInGroup(id, sources, value);
    }
    if NormalizeProviderId(value) != "" && GroupFor(value) == GroupFor(id) {
      GroupIsMatched(id, sources, value);
    }
  }

  lemma MatchIsInGroup(id: string, sources: seq<string>, value: string)
    requires InGroup(sources, GroupFor(id))
    requires MatchesAnyId(value, UniqueIds([GroupFor(id)] + ListedIds(id) + sources))
    ensures NormalizeProviderId(value) != "" && GroupFor(value) == GroupFor(id)
  {
    hide NormalizeProviderId, FirstRule, RuleFor, GroupFor, ListedIds;
    var all := [GroupFor(id)] + ListedIds(id) + sources;
    var ids := UniqueIds(all);
    var i :| 0 <= i < |ids| && SameProviderId(value, ids[i]);
    assert ids[i] in ids;
    var j :| 0 <= j < |all| && NormalizeProviderId(all[j]) == ids[i];
    NormalizeProviderIdIdempotent(all[j]);
    GroupIsStable(all[j]);
    GroupIsStable(value);
    GroupIsStable(id);
    if 0 < j <= |ListedIds(id)| {
      ListedAreInGroup(id, j - 1);
    } else if j > 0 {
      assert all[j] == sources[j - 1 - |ListedIds(id)|];
    }
  }

  lemma GroupIsMatched(id: string, sources: seq<string>, value: string)
    requires NormalizeProviderId(value) != "" && GroupFor(value) == GroupFor(id)
    ensures MatchesAnyId(value, UniqueIds([GroupFor(id)] + ListedIds(id) + sources))
  {
    hide NormalizeProviderId, FirstRule;
    var all := [GroupFor(id)] + ListedIds(id) + sources;
    var ids, normal := UniqueIds(all), NormalizeProviderId(value);
    GroupIsStable(value);
    GroupIsStable(id);
    NormalizeProviderIdIdempotent(value);
    assert exists j :: 0 <= j < |all| && NormalizeProviderId(all[j]) == normal by {
      if RuleFor(value).Some? {
        var k := GroupingRule(value);
        assert ListedIds(id) == ListedIds(GroupFor(value)) == ListedIds(value);
        if normal == PROVIDER_OVERRIDES[k].id {
          assert all[0] == GroupFor(value) == normal;
        } else {
          var j :| 0 <= j < |ListedIds(id)| && ListedIds(id)[j] == normal;
          assert all[j + 1] == normal;
        }
      } else {
        assert all[0] == normal;
      }
    }
    assert normal in ids;
    var i :| 0 <= i < |ids| && ids[i] == normal;
    assert SameProviderId(value, ids[i]);
  }

  // ---------- the catalog ----------

  /** The observed identifiers: normal forms that are not blank, each once, in order of appearance. */
  function AddObserved(observed: seq<string>, value: string): seq<string> {
    var id := NormalizeProviderId(value);
    if id == "" || id in observed then observed else observed + [id]
  }

  ghost predicate IsObserved(observed: seq<string>, values: seq<string>) {
    && (forall i, j :: 0 <= i < j < |observed| ==> observed[i] != observed[j])
    && (forall x :: x in observed <==> x != "" && exists i :: 0 <= i < |values| && NormalizeProviderId(values[i]) == x)
  }

  function CountMatching(values: seq<string>, ids: seq<string>): nat {
    if values == [] then 0
    else CountMatching(values[..|values| - 1], ids) + (if MatchesAnyId(values[|values| - 1], ids) then 1 else 0)
  }

  ghost function CountNonBlank(values: seq<string>): nat {
    if values == [] then 0
    else CountNonBlank(values[..|values| - 1]) + (if NormalizeProviderId(values[|values| - 1]) != "" then 1 else 0)
  }

  ghost function Total(counts: seq<nat>): nat {
    if counts == [] then 0 else Total(counts[..|counts| - 1]) + counts[|counts| - 1]
  }

  ghost function ModelCounts(catalog: seq<Descriptor>): (counts: seq<nat>)
    ensures |counts| == |catalog|
  {
    seq(|catalog|, i requires 0 <= i < |catalog| => catalog[i].modelCount)
  }

  ghost function IntegrationCounts(catalog: seq<Descriptor>): (counts: seq<nat>)
    ensures |counts| == |catalog|
  {
    seq(|catalog|, i requires 0 <= i < |catalog| => catalog[i].integrationCount)
  }

  /** A descriptor is that of its group: it matches the group's providers and nothing else, and counts them. */
  ghost predicate DescribesGroup(d: Descriptor, models: seq<string>, integrations: seq<string>) {
    && (forall v :: MatchesDescriptor(v, d) <==> NormalizeProviderId(v) != "" && GroupFor(v) == d.id)
    && GroupFor(d.id) == d.id
    && d.modelCount == CountMatching(models, d.integrationIds)
    && d.integrationCount == CountMatching(integrations, d.integrationIds)
  }

  ghost predicate DescribeGroups(catalog: seq<Descriptor>, models: seq<string>, integrations: seq<string>) {
    forall i :: 0 <= i < |catalog| ==> DescribesGroup(catalog[i], models, integrations)
  }

  ghost predicate DistinctIds(catalog: seq<Descriptor>) {
    forall i, j :: 0 <= i < j < |catalog| ==> catalog[i].id != catalog[j].id
  }

  /** Every observed identifier has the descriptor of its group. */
  ghost predicate CoversAll(catalog: seq<Descriptor>, values: seq<string>) {
    forall k :: 0 <= k < |values| && NormalizeProviderId(values[k]) != "" ==>
      exists i :: 0 <= i < |catalog| && catalog[i].id == GroupFor(values[k])
  }

  ghost predicate MatchesSome(d: Descriptor, values: seq<string>) {
    exists k :: 0 <= k < |values| && MatchesDescriptor(values[k], d)
  }

  /** Every descriptor matches something that was observed. */
  ghost predicate AllObserved(catalog: seq<Descriptor>, values: seq<string>) {
    forall i :: 0 <= i < |catalog| ==> MatchesSome(catalog[i], values)
  }

  /** One descriptor for each group that has an observed identifier. */
  ghost predicate IsCatalog(catalog: seq<Descriptor>, models: seq<string>, integrations: seq<string>) {
    && DescribeGroups(catalog, models, integrations) && DistinctIds(catalog)
    && CoversAll(catalog, models + integrations) && AllObserved(catalog, models + integrations)
  }

  method BuildProviderCatalog(models: seq<string>, integrations: seq<string>) returns (catalog: seq<Descriptor>)
    ensures IsCatalog(catalog, models, integrations)
  {
    hide NormalizeProviderId, RuleFor, UniqueIds, MatchesAnyId, CountMatching, DescribesGroup, HoldsSources, SourcesOf;
    var observed := Observe(models + integrations);
    var order, groups := Group(observed);
    catalog := [];
    for i := 0 to |order|
      invariant |catalog| == i
      invariant forall j :: 0 <= j < i ==> catalog[j].id == order[j] && DescribesGroup(catalog[j], models, integrations)
    {
      var id := order[i];
      var integrationIds := UniqueIds([id] + ListedIds(id) + groups[id]);
      DescriptorIsSound(id, groups[id], models, integrations);
      catalog := catalog + [Descriptor(id, integrationIds, CountMatching(models, integrationIds),
                                       CountMatching(integrations, integrationIds))];
    }
    CatalogIsComplete(catalog, order, observed, models, integrations);
  }

  ghost predicate IsOfGroup(value: string, group: string) {
    NormalizeProviderId(value) != "" && GroupFor(value) == group
  }

  /** The places in a list that hold a provider of the group. */
  ghost function PlacesOf(values: seq<string>, group: string): set<nat> {
    set k: nat | k < |values| && IsOfGroup(values[k], group)
  }

  lemma PlacesOneLonger(values: seq<string>, group: string)
    requires values != []
    ensures var last := |values| - 1;
            var before := |PlacesOf(values[..last], group)|;
            |PlacesOf(values, group)| == if IsOfGroup(values[last], group) then before + 1 else before
  {
    hide IsOfGroup;
    var last := |values| - 1;
    var before := PlacesOf(values[..last], group);
    assert PlacesOf(values, group) == before + (if IsOfGroup(values[last], group) then {last} else {});
  }

  lemma {:induction false} CountIsPlaces(values: seq<string>, d: Descriptor, models: seq<string>,
      integrations: seq<string>)
    requires DescribesGroup(d, models, integrations)
    ensures CountMatching(values, d.integrationIds) == |PlacesOf(values, d.id)|
  {
    hide NormalizeProviderId, GroupFor, MatchesAnyId, PlacesOf, DescribesGroup;
    if values == [] {
      NoPlaces(d.id);
    } else {
      var last := |values| - 1;
      CountIsPlaces(values[..last], d, models, integrations);
      PlacesOneLonger(values, d.id);
      MatchesItsGroup(d, values[last], models, integrations);
    }
  }

  lemma NoPlaces(group: string)
    ensures PlacesOf([], group) == {}
  {
  }

  lemma MatchesItsGroup(d: Descriptor, v: string, models: seq<string>, integrations: seq<string>)
    requires DescribesGroup(d, models, integrations)
    ensures MatchesAnyId(v, d.integrationIds) <==> NormalizeProviderId(v) != "" && GroupFor(v) == d.id
  {
    hide MatchesAnyId, NormalizeProviderId, GroupFor;
    assert MatchesDescriptor(v, d) == MatchesAnyId(v, d.integrationIds);
  }

  /** A descriptor counts the models and the integrations of its group, one by one. */
  lemma CountsAreOfGroup(d: Descriptor, models: seq<string>, integrations: seq<string>)
    requires DescribesGroup(d, models, integrations)
    ensures d.modelCount == |PlacesOf(models, d.id)| && d.integrationCount == |PlacesOf(integrations, d.id)|
  {
    CountIsPlaces(models, d, models, integrations);
    CountIsPlaces(integrations, d, models, integrations);
  }

  lemma CatalogIsComplete(catalog: seq<Descriptor>, order: seq<string>, observed: seq<string>,
                          models: seq<string>, integrations: seq<string>)
    requires |catalog| == |order| && forall i, j :: 0 <= i < j < |order| ==> order[i] != order[j]
    requires forall i :: 0 <= i < |order| ==>
        catalog[i].id == order[i] && DescribesGroup(catalog[i], models, integrations)
    requires IsObserved(observed, models + integrations)
    requires forall x :: x in observed ==> GroupFor(x) in order
    requires forall g :: g in order ==> exists x :: x in observed && GroupFor(x) == g
    ensures IsCatalog(catalog, models, integrations)
  {
    hide NormalizeProviderId, GroupFor, DescribesGroup, IsObserved, MatchesSome;
    var all := models + integrations;
    assert CoversAll(catalog, all) by {
      forall k | 0 <= k < |all| && NormalizeProviderId(all[k]) != ""
        ensures exists i :: 0 <= i < |catalog| && catalog[i].id == GroupFor(all[k])
      {
        var x := ObservedAt(observed, all, k);
        assert GroupFor(x) in order;
        var i :| 0 <= i < |order| && order[i] == GroupFor(x);
        assert catalog[i].id == GroupFor(all[k]);
      }
    }
    assert AllObserved(catalog, all) by {
      forall i | 0 <= i < |catalog| ensures MatchesSome(catalog[i], all) {
        assert order[i] in order;
        var x :| x in observed && GroupFor(x) == order[i];
        ObservedIsMatched(observed, all, x, catalog[i], models, integrations);
      }
    }
  }

  lemma ObservedAt(observed: seq<string>, values: seq<string>, k: nat) returns (x: string)
    requires IsObserved(observed, values) && k < |values| && NormalizeProviderId(values[k]) != ""
    ensures x in observed && GroupFor(x) == GroupFor(values[k])
  {
    hide NormalizeProviderId, GroupFor;
    x := NormalizeProviderId(values[k]);
    GroupIsStable(values[k]);
  }

  lemma ObservedIsMatched(observed: seq<string>, values: seq<string>, x: string, d: Descriptor,
                          models: seq<string>, integrations: seq<string>)
    requires IsObserved(observed, values) && x in observed && GroupFor(x) == d.id
        && DescribesGroup(d, models, integrations)
    ensures MatchesSome(d, values)
  {
    hide NormalizeProviderId, GroupFor, MatchesDescriptor;
    var k :| 0 <= k < |values| && NormalizeProviderId(values[k]) == x;
    GroupIsStable(values[k]);
  }

  /** The set of observed identifiers, filled one by one. */
  method Observe(values: seq<string>) returns (observed: seq<string>)
    ensures IsObserved(observed, values)
  {
    hide NormalizeProviderId;
    observed := [];
    for i := 0 to |values|
      invariant IsObserved(observed, values[..i])
    {
      assert values[..i + 1] == values[..i] + [values[i]];
      ObserveOne(observed, values[..i], values[i]);
      observed := AddObserved(observed, values[i]);
    }
    assert values[..|values|] == values;
  }

  lemma ObserveOne(observed: seq<string>, values: seq<string>, value: string)
    requires IsObserved(observed, values)
    ensures IsObserved(AddObserved(observed, value), values + [value])
  {
    hide NormalizeProviderId;
    var after, all := AddObserved(observed, value), values + [value];
    assert all[|values|] == value;
    forall x ensures x in after <==> x != "" && exists i :: 0 <= i < |all| && NormalizeProviderId(all[i]) == x {
      if x in observed {
        var i :| 0 <= i < |values| && NormalizeProviderId(values[i]) == x;
        assert all[i] == values[i];
      }
      if x != "" && exists i :: 0 <= i < |all| && NormalizeProviderId(all[i]) == x {
        var i :| 0 <= i < |all| && NormalizeProviderId(all[i]) == x;
        assert i < |values| ==> all[i] == values[i];
      }
    }
  }

  /** The observed identifiers of a group, in order. */
  ghost function SourcesOf(observed: seq<string>, group: string): seq<string> {
    if observed == [] then []
    else
      var last := |observed| - 1;
      SourcesOf(observed[..last], group) + (if GroupFor(observed[last]) == group then [observed[last]] else [])
  }

  /** The groups so far hold exactly the observed identifiers of each group. */
  ghost predicate HoldsSources(groups: map<string, seq<string>>, observed: seq<string>) {
    forall g :: SourcesOf(observed, g) == if g in groups then groups[g] else []
  }

  lemma NoSources()
    ensures forall none: seq<string> :: HoldsSources(map[], none[..0])
  {
  }

  lemma OneMoreSource(groups: map<string, seq<string>>, observed: seq<string>, id: string)
    requires HoldsSources(groups, observed)
    ensures var current := if GroupFor(id) in groups then groups[GroupFor(id)] else [];
            HoldsSources(groups[GroupFor(id) := current + [id]], observed + [id])
  {
    hide GroupFor;
    assert (observed + [id])[..|observed|] == observed;
  }

  /** The groups in order of appearance, each with its observed identifiers. */
  method Group(observed: seq<string>) returns (order: seq<string>, groups: map<string, seq<string>>)
    ensures forall i, j :: 0 <= i < j < |order| ==> order[i] != order[j]
    ensures forall g :: g in order <==> g in groups
    ensures forall x :: x in observed ==> GroupFor(x) in order
    ensures HoldsSources(groups, observed)
    ensures forall g :: g in groups ==>
        GroupFor(g) == g && InGroup(groups[g], g) && exists x :: x in observed && GroupFor(x) == g
  {
    hide NormalizeProviderId, RuleFor, GroupFor, ListedIds, HoldsSources, SourcesOf;
    NoSources();
    order, groups := [], map[];
    for i := 0 to |observed|
      invariant forall p, q :: 0 <= p < q < |order| ==> order[p] != order[q]
      invariant forall g :: g in order <==> g in groups
      invariant forall x :: x in observed[..i] ==> GroupFor(x) in order
      invariant HoldsSources(groups, observed[..i])
      invariant forall g :: g in groups ==>
          GroupFor(g) == g && InGroup(groups[g], g) && exists x :: x in observed[..i] && GroupFor(x) == g
    {
      var sourceId := observed[i];
      var id := GroupFor(sourceId);
      GroupIsStable(sourceId);
      OneMoreSource(groups, observed[..i], sourceId);
      var current := if id in groups then groups[id] else [];
      if id !in groups {
        order := order + [id];
      }
      groups := groups[id := current + [sourceId]];
      assert observed[..i + 1] == observed[..i] + [sourceId];
      assert sourceId in observed[..i + 1];
    }
    assert observed[..|observed|] == observed;
  }

  lemma DescriptorIsSound(id: string, sources: seq<string>, models: seq<string>, integrations: seq<string>)
    requires GroupFor(id) == id && InGroup(sources, id)
    ensures var ids := UniqueIds([id] + ListedIds(id) + sources);
            var d := Descriptor(id, ids, CountMatching(models, ids), CountMatching(integrations, ids));
            DescribesGroup(d, models, integrations)
  {
    hide NormalizeProviderId, RuleFor, UniqueIds, MatchesAnyId, CountMatching;
    forall v
      ensures MatchesAnyId(v, UniqueIds([id] + ListedIds(id) + sources))
          <==> NormalizeProviderId(v) != "" && GroupFor(v) == id
    {
      DescriptorMatchesGroup(id, sources, v);
    }
  }

  // ---------- a partition ----------

  ghost predicate MatchesAtMostOne(v: string, catalog: seq<Descriptor>) {
    forall i, j ::
      && 0 <= i < |catalog| && 0 <= j < |catalog|
      && MatchesDescriptor(v, catalog[i]) && MatchesDescriptor(v, catalog[j]) ==>
        i == j
  }

  /** Every provider that is not blank and was observed matches exactly one descriptor; a blank one matches none. */
  lemma CatalogPartitions(catalog: seq<Descriptor>, models: seq<string>, integrations: seq<string>, k: nat)
    requires IsCatalog(catalog, models, integrations) && k < |models + integrations|
    ensures var v := (models + integrations)[k];
            && (NormalizeProviderId(v) != "" ==> exists i :: 0 <= i < |catalog| && MatchesDescriptor(v, catalog[i]))
            && MatchesAtMostOne(v, catalog)
            && (NormalizeProviderId(v) == "" ==> forall i :: 0 <= i < |catalog| ==> !MatchesDescriptor(v, catalog[i]))
  {
    hide NormalizeProviderId, GroupFor, MatchesDescriptor, CountMatching;
    var v := (models + integrations)[k];
    forall i | 0 <= i < |catalog|
      ensures MatchesDescriptor(v, catalog[i]) <==> NormalizeProviderId(v) != "" && GroupFor(v) == catalog[i].id
    {
      assert DescribesGroup(catalog[i], models, integrations);
    }
    if NormalizeProviderId(v) != "" {
      var i :| 0 <= i < |catalog| && catalog[i].id == GroupFor(v);
      assert MatchesDescriptor(v, catalog[i]);
    }
  }

  ghost function MatchCount(v: string, catalog: seq<Descriptor>): nat {
    if catalog == [] then 0
    else MatchCount(v, catalog[..|catalog| - 1]) + (if MatchesDescriptor(v, catalog[|catalog| - 1]) then 1 else 0)
  }

  lemma {:induction false} MatchedOnce(v: string, catalog: seq<Descriptor>)
    requires MatchesAtMostOne(v, catalog)
    ensures MatchCount(v, catalog)
         == if exists i :: 0 <= i < |catalog| && MatchesDescriptor(v, catalog[i]) then 1 else 0
  {
    hide MatchesDescriptor;
    if catalog != [] {
      var last := |catalog| - 1;
      assert catalog == catalog[..last] + [catalog[last]];
      MatchedOnce(v, catalog[..last]);
      if i :| 0 <= i < last && MatchesDescriptor(v, catalog[i]) {
        assert MatchesDescriptor(v, catalog[..last][i]);
      }
    }
  }

  /** Counting by descriptor and counting by value are the same count. */
  lemma {:induction false} CountsSwap(values: seq<string>, catalog: seq<Descriptor>, counts: seq<nat>)
    requires |counts| == |catalog|
    requires forall i :: 0 <= i < |catalog| ==> counts[i] == CountMatching(values, catalog[i].integrationIds)
    requires forall k :: 0 <= k < |values| ==>
        MatchCount(values[k], catalog) == if NormalizeProviderId(values[k]) != "" then 1 else 0
    ensures Total(counts) == CountNonBlank(values)
  {
    hide NormalizeProviderId, MatchesAnyId;
    if values == [] {
      AllZero(counts);
    } else {
      var last := |values| - 1;
      var before := seq(|catalog|,
          i requires 0 <= i < |catalog| => CountMatching(values[..last], catalog[i].integrationIds));
      assert forall k :: 0 <= k < last ==> values[..last][k] == values[k];
      CountsSwap(values[..last], catalog, before);
      OneValueMore(values[last], catalog, before, counts);
    }
  }

  lemma {:induction false} AllZero(counts: seq<nat>)
    requires forall i :: 0 <= i < |counts| ==> counts[i] == 0
    ensures Total(counts) == 0
  {
    if counts != [] {
      AllZero(counts[..|counts| - 1]);
    }
  }

  lemma {:induction false} OneValueMore(v: string, catalog: seq<Descriptor>, before: seq<nat>, after: seq<nat>)
    requires |before| == |after| == |catalog|
    requires forall i :: 0 <= i < |catalog| ==>
               after[i] == before[i] + (if MatchesAnyId(v, catalog[i].integrationIds) then 1 else 0)
    ensures Total(after) == Total(before) + MatchCount(v, catalog)
  {
    hide MatchesAnyId;
    if catalog != [] {
      var last := |catalog| - 1;
      OneValueMore(v, catalog[..last], before[..last], after[..last]);
    }
  }

  /** No model and no integration is lost or counted twice. */
  lemma CountsAddUp(catalog: seq<Descriptor>, models: seq<string>, integrations: seq<string>)
    requires IsCatalog(catalog, models, integrations)
    ensures Total(ModelCounts(catalog)) == CountNonBlank(models)
    ensures Total(IntegrationCounts(catalog)) == CountNonBlank(integrations)
  {
    hide NormalizeProviderId, GroupFor, MatchesDescriptor, CountMatching;
    var all := models + integrations;
    forall k | 0 <= k < |all|
      ensures MatchCount(all[k], catalog) == if NormalizeProviderId(all[k]) != "" then 1 else 0
    {
      CatalogPartitions(catalog, models, integrations, k);
      MatchedOnce(all[k], catalog);
    }
    assert forall k :: 0 <= k < |models| ==> models[k] == all[k];
    assert forall k :: 0 <= k < |integrations| ==> integrations[k] == all[|models| + k];
    assert forall i :: 0 <= i < |catalog| ==> DescribesGroup(catalog[i], models, integrations);
    CountsSwap(models, catalog, ModelCounts(catalog));
    CountsSwap(integrations, catalog, IntegrationCounts(catalog));
  }

  /** Asking by a catalog descriptor and asking by its identifier give the same answer, for any provider. */
  lemma MatchingAgrees(catalog: seq<Descriptor>, models: seq<string>, integrations: seq<string>, i: nat, v: string)
    requires IsCatalog(catalog, models, integrations) && i < |catalog|
    ensures MatchesDescriptor(v, catalog[i]) <==> MatchesProviderId(v, catalog[i].id)
  {
    hide NormalizeProviderId, RuleFor, UniqueIds, MatchesAnyId, CountMatching;
    var id := catalog[i].id;
    assert DescribesGroup(catalog[i], models, integrations);
    DescriptorMatchesGroup(id, [], v);
    assert [GroupFor(id)] + ListedIds(id) + [] == [GroupFor(id)] + ListedIds(id);
  }
}
