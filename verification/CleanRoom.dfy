/** Import, revocation and purge of shared bundles (core/cleanroom.py, with the fact table of core/memory.py). */
module CleanRoom {
  import opened Prelude

  datatype Item = Item(id: string, kind: string, content: string)

  type Facts = map<string, Item>

  const IMPORT_KEY_PREFIX := "cleanroom/"

  predicate SlashFree(s: string) { '/' !in s }

  function BundlePrefix(bundle: string): string { IMPORT_KEY_PREFIX + bundle + "/" }

  function ImportKey(bundle: string, item: string): string { IMPORT_KEY_PREFIX + bundle + "/" + item }

  predicate Under(key: string, bundle: string) { BundlePrefix(bundle) <= key }

  /** Which imported keys a purge of `bundle` hits: its own, and those an id with slashes makes look like its own. */
  lemma PrefixHitsExactly(bundle: string, other: string, item: string)
    ensures Under(ImportKey(other, item), bundle)
       <==> bundle == other || bundle + "/" <= other || (other + "/" <= bundle && bundle[|other| + 1..] + "/" <= item)
  {
    var mine, theirs := bundle + "/", other + "/" + item;
    assert BundlePrefix(bundle) == IMPORT_KEY_PREFIX + mine && ImportKey(other, item) == IMPORT_KEY_PREFIX + theirs;
    PrefixCancels(IMPORT_KEY_PREFIX, mine, theirs);
    if |bundle| < |other| {
      assert theirs[..|mine|] == other[..|mine|];
    } else if |bundle| == |other| {
      assert theirs[..|mine|] == other + "/";
      assert mine[..|bundle|] == bundle && theirs[..|bundle|] == other;
    } else {
      var cut := |other| + 1;
      assert mine == bundle[..cut] + (bundle[cut..] + "/") && theirs == (other + "/") + item;
      if mine <= theirs {
        assert theirs[..|mine|][..cut] == other + "/" && mine[..cut] == bundle[..cut];
        PrefixCancels(other + "/", bundle[cut..] + "/", item);
      } else if other + "/" <= bundle {
        PrefixCancels(other + "/", bundle[cut..] + "/", item);
      }
    }
  }

  lemma PrefixCancels(common: string, a: string, b: string)
    ensures common + a <= common + b <==> a <= b
  {
    assert (common + b)[..|common|] == common && (common + b)[|common|..] == b;
    if common + a <= common + b {
      assert (common + b)[..|common| + |a|] == common + a;
      assert a == (common + a)[|common|..] == (common + b)[..|common| + |a|][|common|..] == b[..|a|];
    }
  }

  lemma OwnKeysOnly(bundle: string, other: string, item: string)
    requires SlashFree(bundle) && SlashFree(other)
    ensures Under(ImportKey(other, item), bundle) <==> bundle == other
  {
    PrefixHitsExactly(bundle, other, item);
    assert '/' in bundle + "/" && '/' in other + "/";
  }

  // ------------------------------------------------------------ one call

  function Imported(facts: Facts, bundle: string, items: seq<Item>): Facts {
    if items == [] then facts
    else
      var last := items[|items| - 1];
      Imported(facts, bundle, items[..|items| - 1])[ImportKey(bundle, last.id) := last]
  }

  function Accepted(items: seq<Item>, kinds: set<string>): seq<Item> {
    if items == [] then []
    else
      var last := items[|items| - 1];
      Accepted(items[..|items| - 1], kinds) + if last.kind in kinds then [last] else []
  }

  /** Exactly the items of the rule's kinds, each as often as listed. */
  lemma {:induction false} AcceptedExactly(items: seq<Item>, kinds: set<string>, item: Item)
    ensures multiset(Accepted(items, kinds))[item] == if item.kind in kinds then multiset(items)[item] else 0
  {
    if items == [] {
    } else {
      AcceptedExactly(items[..|items| - 1], kinds, item);
      assert items == items[..|items| - 1] + [items[|items| - 1]];
    }
  }

  function Purged(facts: Facts, bundle: string): Facts { map k | k in facts && !Under(k, bundle) :: facts[k] }

  lemma KeysDiffer(bundle: string, x: string, y: string)
    ensures ImportKey(bundle, x) == ImportKey(bundle, y) <==> x == y
    ensures Under(ImportKey(bundle, x), bundle)
  {
    assert ImportKey(bundle, x)[|BundlePrefix(bundle)|..] == x && ImportKey(bundle, y)[|BundlePrefix(bundle)|..] == y;
    PrefixHitsExactly(bundle, bundle, x);
  }

  /** The item an import leaves under an id: the last of several with that id. */
  function LastWith(items: seq<Item>, id: string): Option<Item> {
    if items == [] then None
    else
      var last := items[|items| - 1];
      if last.id == id then Some(last) else LastWith(items[..|items| - 1], id)
  }

  /**
   * What an import leaves in the table: under each own key the last item with that id, and every other
   * key as it was.
   */
  lemma {:induction false} ImportIsExact(facts: Facts, bundle: string, items: seq<Item>, id: string)
    ensures LastWith(items, id).Some? ==>
              ImportKey(bundle, id) in Imported(facts, bundle, items)
              && Imported(facts, bundle, items)[ImportKey(bundle, id)] == LastWith(items, id).value
    ensures forall k :: (!Under(k, bundle) || (k == ImportKey(bundle, id) && LastWith(items, id).None?)) ==>
              (k in Imported(facts, bundle, items) <==> k in facts)
              && (k in facts ==> Imported(facts, bundle, items)[k] == facts[k])
  {
    if items == [] {
    } else {
      ImportIsExact(facts, bundle, items[..|items| - 1], id);
      KeysDiffer(bundle, items[|items| - 1].id, id);
    }
  }

  /** A purge takes back all an import brought in and nothing more. */
  lemma PurgeUndoesImport(facts: Facts, bundle: string, items: seq<Item>)
    ensures Purged(Imported(facts, bundle, items), bundle) == Purged(facts, bundle)
    ensures (forall k :: k in facts ==> !Under(k, bundle)) ==> Purged(Imported(facts, bundle, items), bundle) == facts
  {
    ImportIsExact(facts, bundle, items, "");
  }

  datatype AcceptRule = AcceptRule(from: set<string>, kinds: set<string>, profiles: set<string>)

  datatype Bundle = Bundle(id: string, source: string, audience: string, profile: string, items: seq<Item>)

  datatype Refusal = NoSection | Revoked | WrongAudience | NoAcceptRule | ProfileNotAccepted | GuardrailDenied

  datatype Counts = Counts(imported: nat, skipped: nat)

  predicate Admits(rule: AcceptRule, source: string) { source in rule.from }

  predicate AnyAdmits(rules: seq<AcceptRule>, source: string) { exists rule :: rule in rules && Admits(rule, source) }

  /** Declaration order decides. */
  function FirstRule(rules: seq<AcceptRule>, source: string): Option<AcceptRule> {
    if rules == [] then None
    else if Admits(rules[0], source) then Some(rules[0])
    else FirstRule(rules[1..], source)
  }

  /** What an import is checked against; `shares` says that the persona declares share rules. */
  datatype Checks = Checks(persona: string, shares: bool, rules: seq<AcceptRule>, revoked: bool, allowed: bool)

  /** The checks between reading a verified bundle and storing its first item. */
  function Admission(c: Checks, bundle: Bundle): Result<AcceptRule, Refusal> {
    var rule := FirstRule(c.rules, bundle.source);
    if !c.shares && c.rules == [] then Err(NoSection)
    else if c.revoked then Err(Revoked)
    else if bundle.audience != c.persona then Err(WrongAudience)
    else if rule.None? then Err(NoAcceptRule)
    else if rule.value.profiles != {} && bundle.profile !in rule.value.profiles then Err(ProfileNotAccepted)
    else if !c.allowed then Err(GuardrailDenied)
    else Ok(rule.value)
  }

  /** The i-th rule names the source, and none before it does. */
  predicate DecidesFor(rules: seq<AcceptRule>, source: string, i: nat) {
    i < |rules| && source in rules[i].from && forall j :: 0 <= j < i ==> source !in rules[j].from
  }

  predicate ProfileFits(rule: AcceptRule, profile: string) { rule.profiles == {} || profile in rule.profiles }

  lemma {:induction false} FirstRuleExactly(rules: seq<AcceptRule>, source: string)
    ensures FirstRule(rules, source).None? <==> forall i :: 0 <= i < |rules| ==> source !in rules[i].from
    ensures forall i: nat :: DecidesFor(rules, source, i) ==> FirstRule(rules, source) == Some(rules[i])
    ensures FirstRule(rules, source).Some? ==> exists i: nat :: DecidesFor(rules, source, i)
  {
    if rules == [] {
    } else {
      FirstRuleExactly(rules[1..], source);
      assert forall i :: 1 <= i < |rules| ==> rules[i] == rules[1..][i - 1];
      forall i: nat | DecidesFor(rules, source, i) ensures FirstRule(rules, source) == Some(rules[i]) {
        if i > 0 {
          assert source !in rules[0].from;
          assert DecidesFor(rules[1..], source, i - 1);
        }
      }
      if source in rules[0].from {
        assert DecidesFor(rules, source, 0);
      } else if FirstRule(rules, source).Some? {
        var i: nat :| DecidesFor(rules[1..], source, i);
        assert DecidesFor(rules, source, i + 1);
      }
    }
  }

  /** What a refusal says: its own check failed and none before it did. */
  ghost predicate Refused(c: Checks, bundle: Bundle, why: Refusal) {
    var addressed := bundle.audience == c.persona;
    match why
    case NoSection => !c.shares && c.rules == []
    case Revoked => (c.shares || c.rules != []) && c.revoked
    case WrongAudience => (c.shares || c.rules != []) && !c.revoked && !addressed
    case NoAcceptRule =>
      && (c.shares || c.rules != []) && !c.revoked && addressed
      && forall i :: 0 <= i < |c.rules| ==> bundle.source !in c.rules[i].from
    case ProfileNotAccepted =>
      !c.revoked && addressed
      && exists i: nat :: DecidesFor(c.rules, bundle.source, i) && !ProfileFits(c.rules[i], bundle.profile)
    case GuardrailDenied =>
      !c.revoked && addressed && !c.allowed
      && exists i: nat :: DecidesFor(c.rules, bundle.source, i) && ProfileFits(c.rules[i], bundle.profile)
  }

  /**
   * A bundle is admitted under the first rule that names its source, exactly if it is not revoked,
   * addressed to the persona, of an accepted profile and allowed; otherwise the first check that fails
   * is the one reported.
   */
  lemma AdmissionExactly(c: Checks, bundle: Bundle, rule: AcceptRule, why: Refusal)
    ensures Admission(c, bundle) == Ok(rule)
       <==> && !c.revoked && bundle.audience == c.persona && c.allowed && ProfileFits(rule, bundle.profile)
            && exists i: nat :: DecidesFor(c.rules, bundle.source, i) && c.rules[i] == rule
    ensures Admission(c, bundle) == Err(why) <==> Refused(c, bundle, why)
  {
    FirstRuleExactly(c.rules, bundle.source);
  }

  class FactTable {
    var facts: Facts

    method StoreFact(key: string, value: Item)
      modifies this
      ensures facts == old(facts)[key := value]
    {
      facts := facts[key := value];
    }

    /** An empty prefix is refused. */
    method DeleteFactsByPrefix(prefix: string) returns (r: Result<nat, string>)
      modifies this
      ensures r.Err? <==> prefix == ""
      ensures r.Err? ==> facts == old(facts)
      ensures r.Ok? ==> facts == (map k | k in old(facts) && !(prefix <= k) :: old(facts)[k])
      ensures r.Ok? ==> r.value == |set k | k in old(facts) && prefix <= k|
    {
      if prefix == "" {
        return Err("delete_facts_by_prefix requires a non-empty key_prefix.");
      }
      var hit := set k | k in facts && prefix <= k;
      facts := facts - hit;
      assert facts.Keys == old(facts).Keys - hit;
      return Ok(|hit|);
    }

    /** First rule whose pattern list matches the source; patterns are given by the set of names they match. */
    method AcceptRuleFor(rules: seq<AcceptRule>, source: string) returns (r: Option<AcceptRule>)
      ensures r == FirstRule(rules, source)
      ensures r.None? <==> !AnyAdmits(rules, source)
      ensures r.Some? ==>
        exists i :: 0 <= i < |rules| && rules[i] == r.value && Admits(rules[i], source)
            && !AnyAdmits(rules[..i], source)
    {
      for i := 0 to |rules|
        invariant FirstRule(rules, source) == FirstRule(rules[i..], source)
        invariant forall j :: 0 <= j < i ==> !Admits(rules[j], source)
      {
        if Admits(rules[i], source) {
          return Some(rules[i]);
        }
      }
      return None;
    }

    /** An import of a verified bundle that is not interrupted. `revoked` is what the shared space says at the check. */
    method ImportShared(c: Checks, bundle: Bundle) returns (r: Result<Counts, Refusal>)
      modifies this
      ensures match Admission(c, bundle)
        case Err(why) => r == Err(why) && facts == old(facts)
        case Ok(rule) =>
          var taken := Accepted(bundle.items, rule.kinds);
          && facts == Imported(old(facts), bundle.id, taken)
          && r.Ok?
          && r.value.imported == |taken|
          && r.value.imported + r.value.skipped == |bundle.items|
    {
      if !c.shares && c.rules == [] {
        return Err(NoSection);
      }
      if c.revoked {
        return Err(Revoked);
      }
      if bundle.audience != c.persona {
        return Err(WrongAudience);
      }
      var found := AcceptRuleFor(c.rules, bundle.source);
      if found.None? {
        return Err(NoAcceptRule);
      }
      var rule := found.value;
      if rule.profiles != {} && bundle.profile !in rule.profiles {
        return Err(ProfileNotAccepted);
      }
      if !c.allowed {
        return Err(GuardrailDenied);
      }
      var imported, skipped := 0, 0;
      for i := 0 to |bundle.items|
        invariant facts == Imported(old(facts), bundle.id, Accepted(bundle.items[..i], rule.kinds))
        invariant imported == |Accepted(bundle.items[..i], rule.kinds)| && imported + skipped == i
      {
        var item := bundle.items[i];
        assert bundle.items[..i + 1][..i] == bundle.items[..i];
        ghost var before := Accepted(bundle.items[..i], rule.kinds);
        if item.kind !in rule.kinds {
          skipped := skipped + 1;
          assert before + [] == before;
        } else {
          assert (before + [item])[..|before|] == before;
          StoreFact(ImportKey(bundle.id, item.id), item);
          imported := imported + 1;
        }
      }
      assert bundle.items[..|bundle.items|] == bundle.items;
      return Ok(Counts(imported, skipped));
    }

    /** A purge that is not interrupted, over the revocation records it listed at the start. */
    method PurgeRevoked(records: seq<string>) returns (total: nat)
      modifies this
      ensures facts == Surviving(old(facts), records)
      ensures total == |old(facts)| - |facts|
    {
      total := 0;
      assert Surviving(facts, []) == facts;
      for i := 0 to |records|
        invariant facts == Surviving(old(facts), records[..i])
        invariant total == |old(facts)| - |facts|
      {
        ghost var before := facts;
        var deleted := DeleteFactsByPrefix(BundlePrefix(records[i]));
        Split(before, BundlePrefix(records[i]));
        total := total + deleted.value;
        assert records[..i + 1] == records[..i] + [records[i]];
        OneMoreRecord(old(facts), records[..i], records[i]);
        assert facts == Purged(before, records[i]);
      }
      assert records[..|records|] == records;
    }
  }

  lemma OneMoreRecord(facts: Facts, records: seq<string>, bundle: string)
    ensures Surviving(facts, records + [bundle]) == Purged(Surviving(facts, records), bundle)
  {
    assert forall b :: b in records + [bundle] <==> b in records || b == bundle;
  }

  /** What is left when the keys of all recorded bundles are gone. */
  function Surviving(facts: Facts, records: seq<string>): Facts {
    map k | k in facts && (forall b :: b in records ==> !Under(k, b)) :: facts[k]
  }

  lemma Split(facts: Facts, prefix: string)
    ensures |facts| == |set k | k in facts && prefix <= k| + |map k | k in facts && !(prefix <= k) :: facts[k]|
  {
    var hit, kept := set k | k in facts && prefix <= k, map k | k in facts && !(prefix <= k) :: facts[k];
    assert facts.Keys == hit + kept.Keys && hit !! kept.Keys;
    assert |facts| == |facts.Keys| && |kept| == |kept.Keys|;
  }
}
