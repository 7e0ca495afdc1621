/** Exports, imports, revocations and purges around one consumer, interleaved at their awaits (core/cleanroom.py). */
module CleanRoomRuns {
  import opened Prelude
  import opened CleanRoom

  const REVOCATIONS := "revocations"

  /** A file `<directory>/<bundle>.json` of the shared space. */
  datatype File = File(directory: string, bundle: string)

  /** The shared space: which files exist, with the source persona each one names. */
  type Space = map<File, string>

  /** An import that has passed its checks, with the accepted items it has still to store. */
  datatype Flight = Flight(bundle: string, todo: seq<Item>)

  datatype World = World(space: Space, facts: Facts, imports: map<nat, Flight>, purges: map<nat, set<string>>)

  /**
   * One step each: what runs between two awaits. The revocation check and the other checks of an
   * import are one step; every stored item and every deleted bundle is a step of its own.
   */
  datatype Event =
    | Export(source: string, audience: string, bundle: string)
    | Revoke(actor: string, audience: string, bundle: string)
    | BeginImport(id: nat, bundle: string, items: seq<Item>)
    | StoreNext(id: nat)
    | AbandonImport(id: nat)
    | BeginPurge(id: nat)
    | PurgeNext(id: nat, bundle: string)
    | AbandonPurge(id: nat)
    | WriteOther(key: string, item: Item)

  predicate IsRevoked(space: Space, bundle: string) { File(REVOCATIONS, bundle) in space }

  /** `find_bundle` looks in every directory but the revocations. */
  predicate Findable(space: Space, bundle: string) {
    exists f :: f in space && f.bundle == bundle && f.directory != REVOCATIONS
  }

  predicate Unused(space: Space, bundle: string) { forall f :: f in space ==> f.bundle != bundle }

  /** A step that does not apply changes nothing. Bundle ids are hex, so they hold no slash and are not reused. */
  function Step(w: World, e: Event): World {
    match e
    case Export(source, audience, bundle) =>
      if SlashFree(bundle) && Unused(w.space, bundle) then w.(space := w.space[File(audience, bundle) := source]) else w
    case Revoke(actor, audience, bundle) =>
      if audience != REVOCATIONS && File(audience, bundle) in w.space && w.space[File(audience, bundle)] == actor
      then w.(space := w.space[File(REVOCATIONS, bundle) := actor])
      else w
    case BeginImport(id, bundle, items) =>
      if id !in w.imports && SlashFree(bundle) && !IsRevoked(w.space, bundle)
      then w.(imports := w.imports[id := Flight(bundle, items)])
      else w
    case StoreNext(id) =>
      if id in w.imports && w.imports[id].todo != [] then
        var f := w.imports[id];
        w.(facts := w.facts[ImportKey(f.bundle, f.todo[0].id) := f.todo[0]],
           imports := w.imports[id := f.(todo := f.todo[1..])])
      else w
    case AbandonImport(id) => w.(imports := w.imports - {id})
    case BeginPurge(id) =>
      if id !in w.purges
      then w.(purges := w.purges[id := set f | f in w.space && f.directory == REVOCATIONS :: f.bundle])
      else w
    case PurgeNext(id, bundle) =>
      if id in w.purges && bundle in w.purges[id]
      then w.(facts := Purged(w.facts, bundle), purges := w.purges[id := w.purges[id] - {bundle}])
      else w
    case AbandonPurge(id) => w.(purges := w.purges - {id})
    case WriteOther(key, item) =>
      if IMPORT_KEY_PREFIX <= key then w else w.(facts := w.facts[key := item])
  }

  function Run(w: World, es: seq<Event>): World
    decreases |es|
  {
    if es == [] then w else Run(Step(w, es[0]), es[1..])
  }

  lemma {:induction false} RunInTwo(w: World, first: seq<Event>, second: seq<Event>)
    ensures Run(w, first + second) == Run(Run(w, first), second)
    decreases |first|
  {
    if first == [] {
      assert first + second == second;
    } else {
      assert (first + second)[1..] == first[1..] + second;
      RunInTwo(Step(w, first[0]), first[1..], second);
    }
  }

  // ---------------------------------------------------------- invariants

  /** An id lives in one audience directory, and a revocation record names the persona that exported the bundle. */
  predicate SpaceInv(space: Space) {
    && (forall f, g :: f in space && g in space && f.bundle == g.bundle && f.directory != g.directory
          ==> f.directory == REVOCATIONS || g.directory == REVOCATIONS)
    && (forall f, g :: f in space && g in space && f.bundle == g.bundle ==> space[f] == space[g])
  }

  predicate Inv(w: World) { SpaceInv(w.space) && forall id :: id in w.imports ==> SlashFree(w.imports[id].bundle) }

  lemma StepKeepsInv(w: World, e: Event)
    requires Inv(w)
    ensures Inv(Step(w, e))
  {
  }

  lemma {:induction false} RunKeepsInv(w: World, es: seq<Event>)
    requires Inv(w)
    ensures Inv(Run(w, es))
    decreases |es|
  {
    if es == [] {
    } else {
      StepKeepsInv(w, es[0]);
      RunKeepsInv(Step(w, es[0]), es[1..]);
    }
  }

  /** From an empty space, only the exporter of a bundle can ever have revoked it. */
  lemma OnlyTheSourceRevokes(w: World, es: seq<Event>, audience: string, bundle: string)
    requires w.space == map[] && w.imports == map[]
    ensures var space := Run(w, es).space;
      IsRevoked(space, bundle) && File(audience, bundle) in space
      ==> space[File(REVOCATIONS, bundle)] == space[File(audience, bundle)]
  {
    RunKeepsInv(w, es);
  }

  // ----------------------------------------------------------- permanence

  /** Revoked, and no import that passed the check earlier still has an item of the bundle to store. */
  predicate Quiet(w: World, bundle: string) {
    && IsRevoked(w.space, bundle)
    && forall id :: id in w.imports && w.imports[id].bundle == bundle ==> w.imports[id].todo == []
  }

  predicate Gone(w: World, bundle: string) { forall k :: k in w.facts ==> !Under(k, bundle) }

  lemma ImportedKeysAreMarked(key: string, bundle: string)
    requires Under(key, bundle)
    ensures IMPORT_KEY_PREFIX <= key
  {
    assert BundlePrefix(bundle)[..|IMPORT_KEY_PREFIX|] == IMPORT_KEY_PREFIX;
    assert key[..|BundlePrefix(bundle)|][..|IMPORT_KEY_PREFIX|] == key[..|IMPORT_KEY_PREFIX|];
  }

  /** What a purge that is under way has achieved for a quiet bundle: it is gone, or still on the list. */
  predicate Pending(w: World, purge: nat, bundle: string) {
    Quiet(w, bundle) && (purge in w.purges ==> bundle in w.purges[purge] || Gone(w, bundle))
  }

  lemma StepKeepsQuiet(w: World, e: Event, bundle: string)
    requires Inv(w) && SlashFree(bundle) && Quiet(w, bundle)
    ensures Quiet(Step(w, e), bundle)
    ensures Gone(w, bundle) ==> Gone(Step(w, e), bundle)
  {
    match e {
      case StoreNext(id) =>
        if id in w.imports && w.imports[id].todo != [] {
          OwnKeysOnly(bundle, w.imports[id].bundle, w.imports[id].todo[0].id);
        }
      case WriteOther(key, item) =>
        if Under(key, bundle) {
          ImportedKeysAreMarked(key, bundle);
        }
      case _ =>
    }
  }

  lemma StepKeepsPending(w: World, e: Event, purge: nat, bundle: string)
    requires Inv(w) && SlashFree(bundle) && Pending(w, purge, bundle)
    ensures Pending(Step(w, e), purge, bundle)
  {
    hide Under, Purged;
    StepKeepsQuiet(w, e, bundle);
    match e {
      case BeginPurge(id) =>
        assert File(REVOCATIONS, bundle).bundle == bundle;
      case PurgeNext(id, b) =>
        PurgedIsGone(w, b);
      case _ =>
    }
  }

  lemma PurgedIsGone(w: World, bundle: string)
    ensures Gone(w.(facts := Purged(w.facts, bundle)), bundle)
  {
  }

  lemma {:induction false} NeverReturns(w: World, es: seq<Event>, bundle: string)
    requires Inv(w) && SlashFree(bundle) && Quiet(w, bundle)
    ensures Quiet(Run(w, es), bundle)
    ensures Gone(w, bundle) ==> Gone(Run(w, es), bundle)
    decreases |es|
  {
    if es == [] {
    } else {
      StepKeepsInv(w, es[0]);
      StepKeepsQuiet(w, es[0], bundle);
      NeverReturns(Step(w, es[0]), es[1..], bundle);
    }
  }

  lemma {:induction false} PendingLasts(w: World, es: seq<Event>, purge: nat, bundle: string)
    requires Inv(w) && SlashFree(bundle) && Pending(w, purge, bundle)
    ensures Inv(Run(w, es)) && Pending(Run(w, es), purge, bundle)
    decreases |es|
  {
    if es == [] {
    } else {
      StepKeepsInv(w, es[0]);
      StepKeepsPending(w, es[0], purge, bundle);
      PendingLasts(Step(w, es[0]), es[1..], purge, bundle);
    }
  }

  /**
   * Revocation is permanent. A purge that begins after the revocation, and after the last import
   * that had passed the check has stored its last item, and that works off its whole list, leaves
   * no key of the bundle, whatever runs meanwhile; and none ever comes back.
   */
  lemma RevocationIsPermanent(w: World, purge: nat, during: seq<Event>, later: seq<Event>, bundle: string)
    requires Inv(w) && SlashFree(bundle) && Quiet(w, bundle) && purge !in w.purges
    requires var done := Run(w, [BeginPurge(purge)] + during); purge in done.purges && done.purges[purge] == {}
    ensures Gone(Run(w, [BeginPurge(purge)] + during + later), bundle)
  {
    var es := [BeginPurge(purge)] + during;
    PendingLasts(w, es, purge, bundle);
    NeverReturns(Run(w, es), later, bundle);
    RunInTwo(w, es, later);
  }

  /** Exactly when can a bundle that is gone never come back: when it is revoked and no import of it is under way. */
  lemma NeverReturnsExactly(w: World, bundle: string)
    requires Inv(w) && SlashFree(bundle) && Gone(w, bundle)
    ensures (forall es :: Gone(Run(w, es), bundle)) <==> Quiet(w, bundle)
  {
    if Quiet(w, bundle) {
      forall es ensures Gone(Run(w, es), bundle) { NeverReturns(w, es, bundle); }
    } else {
      var es := WayBack(w, bundle);
    }
  }

  lemma WayBack(w: World, bundle: string) returns (es: seq<Event>)
    requires SlashFree(bundle) && !Quiet(w, bundle)
    ensures !Gone(Run(w, es), bundle)
  {
    if IsRevoked(w.space, bundle) {
      var id :| id in w.imports && w.imports[id].bundle == bundle && w.imports[id].todo != [];
      es := [StoreNext(id)];
      StoringBringsBack(w, id);
    } else {
      var id := FreshId(w.imports.Keys);
      var items := [Item("", "", "")];
      var begun := Step(w, BeginImport(id, bundle, items));
      assert begun.imports[id] == Flight(bundle, items) by { assert id !in w.imports; }
      StoringBringsBack(begun, id);
      es := [BeginImport(id, bundle, items), StoreNext(id)];
      assert es[1..] == [StoreNext(id)];
    }
  }

  lemma StoringBringsBack(w: World, id: nat)
    requires id in w.imports && w.imports[id].todo != []
    ensures !Gone(Run(w, [StoreNext(id)]), w.imports[id].bundle)
  {
    var f := w.imports[id];
    var after := Step(w, StoreNext(id));
    assert [StoreNext(id)][1..] == [];
    assert Run(w, [StoreNext(id)]) == Run(after, []) == after;
    KeysDiffer(f.bundle, f.todo[0].id, f.todo[0].id);
    assert ImportKey(f.bundle, f.todo[0].id) in after.facts;
  }

  // ------------------------------------------------------------ isolation

  /** A purge step takes the bundle's keys and leaves other bundles, and everything else the persona knows, alone. */
  lemma PurgeLeavesOthers(w: World, purge: nat, bundle: string, other: string, item: string, key: string)
    requires purge in w.purges && bundle in w.purges[purge] && SlashFree(bundle) && SlashFree(other)
    ensures var after := Step(w, PurgeNext(purge, bundle));
      && Gone(after, bundle)
      && (other != bundle ==>
            var k := ImportKey(other, item);
            (k in after.facts <==> k in w.facts) && (k in w.facts ==> after.facts[k] == w.facts[k]))
      && (!(IMPORT_KEY_PREFIX <= key) ==>
            (key in after.facts <==> key in w.facts) && (key in w.facts ==> after.facts[key] == w.facts[key]))
  {
    OwnKeysOnly(bundle, other, item);
    if Under(key, bundle) {
      ImportedKeysAreMarked(key, bundle);
    }
  }

  /** An audience called "revocations" never receives anything: its bundles are born revoked and cannot be found. */
  lemma ExportReachesAudienceExactly(w: World, source: string, audience: string, bundle: string)
    requires SlashFree(bundle) && Unused(w.space, bundle)
    ensures var space := Step(w, Export(source, audience, bundle)).space;
      && (IsRevoked(space, bundle) <==> audience == REVOCATIONS)
      && (Findable(space, bundle) <==> audience != REVOCATIONS)
  {
    var space := Step(w, Export(source, audience, bundle)).space;
    assert File(audience, bundle) in space;
  }

  // ------------------------------------ undisturbed calls, in one go or step by step

  function StoreAll(id: nat, n: nat): seq<Event> { seq(n, _ => StoreNext(id)) }

  lemma {:induction false} ImportedFromFront(facts: Facts, bundle: string, items: seq<Item>)
    requires items != []
    ensures Imported(facts, bundle, items)
        == Imported(facts[ImportKey(bundle, items[0].id) := items[0]], bundle, items[1..])
  {
    if |items| > 1 {
      ImportedFromFront(facts, bundle, items[..|items| - 1]);
      assert items[1..][..|items| - 2] == items[..|items| - 1][1..];
    }
  }

  /** The stores of an import, taken without a break, are the import the table's own method does. */
  lemma {:induction false} StoresAreTheImport(w: World, id: nat)
    requires id in w.imports
    ensures var f := w.imports[id];
      Run(w, StoreAll(id, |f.todo|)).facts == Imported(w.facts, f.bundle, f.todo)
    decreases |w.imports[id].todo|
  {
    var f := w.imports[id];
    if f.todo == [] {
    } else {
      StoresAreTheImport(Step(w, StoreNext(id)), id);
      ImportedFromFront(w.facts, f.bundle, f.todo);
      assert StoreAll(id, |f.todo|)[1..] == StoreAll(id, |f.todo| - 1);
    }
  }

  function PurgeAll(id: nat, records: seq<string>): seq<Event> {
    seq(|records|, i requires 0 <= i < |records| => PurgeNext(id, records[i]))
  }

  /** The deletions of a purge, in any order of its list, are the purge the table's own method does. */
  lemma {:induction false} DeletionsAreThePurge(w: World, id: nat, records: seq<string>)
    requires id in w.purges && forall b :: b in records ==> b in w.purges[id]
    requires forall i, j :: 0 <= i < j < |records| ==> records[i] != records[j]
    ensures Run(w, PurgeAll(id, records)).facts == Surviving(w.facts, records)
    decreases |records|
  {
    if records == [] {
      assert Surviving(w.facts, []) == w.facts;
    } else {
      var first, rest := records[0], records[1..];
      var after := Step(w, PurgeNext(id, first));
      assert forall b :: b in rest ==> b != first;
      DeletionsAreThePurge(after, id, rest);
      assert PurgeAll(id, records)[1..] == PurgeAll(id, rest);
      assert records == [first] + rest;
      assert Surviving(Purged(w.facts, first), rest) == Surviving(w.facts, records);
    }
  }

  /** A purge begins with exactly the bundles revoked at that moment, and one under way is not begun again. */
  lemma PurgeListsRevoked(w: World, id: nat, bundle: string)
    ensures id !in w.purges ==>
        var begun := Step(w, BeginPurge(id));
        id in begun.purges && (bundle in begun.purges[id] <==> IsRevoked(w.space, bundle))
    ensures id in w.purges ==> Step(w, BeginPurge(id)) == w
  {
    if id !in w.purges {
      var listed := Step(w, BeginPurge(id)).purges[id];
      assert bundle in listed <==> exists f :: f in w.space && f.directory == REVOCATIONS && f.bundle == bundle;
      forall f | f in w.space && f.directory == REVOCATIONS && f.bundle == bundle ensures IsRevoked(w.space, bundle) {
        assert f == File(REVOCATIONS, bundle);
      }
    }
  }

  lemma {:induction false} DeletionsEmptyTheList(w: World, id: nat, records: seq<string>)
    requires id in w.purges
    ensures var done := Run(w, PurgeAll(id, records));
      id in done.purges && done.purges[id] == w.purges[id] - set b | b in records
    decreases |records|
  {
    if records == [] {
    } else {
      DeletionsEmptyTheList(Step(w, PurgeNext(id, records[0])), id, records[1..]);
      assert PurgeAll(id, records)[1..] == PurgeAll(id, records[1..]);
      assert records == [records[0]] + records[1..];
    }
  }

  /** Begun and worked off in any order without a break, a purge has nothing left on its list and has done its work. */
  lemma WholePurge(w: World, id: nat, records: seq<string>)
    requires id !in w.purges && Distinct(records) && forall b :: b in records <==> IsRevoked(w.space, b)
    ensures var done := Run(w, [BeginPurge(id)] + PurgeAll(id, records));
      && id in done.purges && done.purges[id] == {}
      && done.facts == Surviving(w.facts, records)
  {
    var begun := Step(w, BeginPurge(id));
    forall b ensures b in begun.purges[id] <==> b in records { PurgeListsRevoked(w, id, b); }
    assert ([BeginPurge(id)] + PurgeAll(id, records))[1..] == PurgeAll(id, records);
    DeletionsEmptyTheList(begun, id, records);
    DeletionsAreThePurge(begun, id, records);
  }

  // -------------------------------------------------- revocation over a run

  predicate Exports(e: Event, bundle: string) { e.Export? && e.bundle == bundle }

  predicate FirstExport(es: seq<Event>, bundle: string, j: nat) {
    j < |es| && Exports(es[j], bundle) && forall i :: 0 <= i < j ==> !Exports(es[i], bundle)
  }

  /** The exporter itself revoked the bundle later on, or its audience is the directory of the revocations. */
  predicate RevokedSince(es: seq<Event>, j: nat)
    requires j < |es| && es[j].Export?
  {
    || es[j].audience == REVOCATIONS
    || exists k :: j < k < |es| && es[k] == Revoke(es[j].source, es[j].audience, es[j].bundle)
  }

  lemma RunAdds(w: World, init: seq<Event>, e: Event)
    ensures Run(w, init + [e]) == Step(Run(w, init), e)
  {
    hide Step;
    RunInTwo(w, init, [e]);
    assert [e][1..] == [];
  }

  lemma {:induction false} UnusedUntilExported(w: World, es: seq<Event>, bundle: string)
    requires w.space == map[] && forall i :: 0 <= i < |es| ==> !Exports(es[i], bundle)
    ensures Unused(Run(w, es).space, bundle)
  {
    if es == [] {
    } else {
      var init, e := es[..|es| - 1], es[|es| - 1];
      assert es == init + [e];
      UnusedUntilExported(w, init, bundle);
      RunAdds(w, init, e);
    }
  }

  lemma RevokedSinceAdds(init: seq<Event>, e: Event, j: nat)
    requires j < |init| && init[j].Export?
    ensures RevokedSince(init + [e], j)
       <==> RevokedSince(init, j) || e == Revoke(init[j].source, init[j].audience, init[j].bundle)
  {
    assert forall k :: 0 <= k < |init| ==> (init + [e])[k] == init[k];
    assert (init + [e])[|init|] == e;
  }

  lemma NotYetRevoked(es: seq<Event>)
    requires es != [] && es[|es| - 1].Export?
    ensures RevokedSince(es, |es| - 1) <==> es[|es| - 1].audience == REVOCATIONS
  {
  }

  /** The files of a bundle, told from the events: its own under the audience, and the record of its revocation. */
  lemma {:induction false} FilesOverHistory(w: World, es: seq<Event>, bundle: string, j: nat, f: File)
    requires w.space == map[] && SlashFree(bundle) && FirstExport(es, bundle, j) && f.bundle == bundle
    ensures var space := Run(w, es).space;
      && (f in space <==> f.directory == es[j].audience || (f.directory == REVOCATIONS && RevokedSince(es, j)))
      && (f in space ==> space[f] == es[j].source)
  {
    hide Run, RevokedSince, Purged;
    var init, e := es[..|es| - 1], es[|es| - 1];
    assert es == init + [e];
    RunAdds(w, init, e);
    if j == |init| {
      UnusedUntilExported(w, init, bundle);
      NotYetRevoked(es);
    } else {
      assert FirstExport(init, bundle, j);
      var own := File(init[j].audience, bundle);
      FilesOverHistory(w, init, bundle, j, f);
      FilesOverHistory(w, init, bundle, j, own);
      RevokedSinceAdds(init, e, j);
      if e.Revoke? && e.bundle == bundle {
        FilesOverHistory(w, init, bundle, j, File(e.audience, bundle));
      }
    }
  }

  /**
   * Over every run from an empty space: a bundle is revoked exactly if its exporter revoked it after
   * the export, naming its audience, or was exported to the audience "revocations"; it can be found
   * exactly if it was exported to any other.
   */
  lemma RevokedOverHistory(w: World, es: seq<Event>, bundle: string)
    requires w.space == map[] && SlashFree(bundle)
    ensures IsRevoked(Run(w, es).space, bundle)
       <==> exists j: nat :: FirstExport(es, bundle, j) && RevokedSince(es, j)
    ensures Findable(Run(w, es).space, bundle)
       <==> exists j: nat :: FirstExport(es, bundle, j) && es[j].audience != REVOCATIONS
  {
    hide Run, RevokedSince;
    var space := Run(w, es).space;
    if j: nat :| FirstExport(es, bundle, j) {
      forall f: File | f.bundle == bundle
        ensures f in space
           <==> f.directory == es[j].audience || (f.directory == REVOCATIONS && RevokedSince(es, j))
      {
        FilesOverHistory(w, es, bundle, j, f);
      }
      BornRevoked(es, j);
      assert forall i: nat :: FirstExport(es, bundle, i) ==> i == j;
      assert File(REVOCATIONS, bundle) in space <==> RevokedSince(es, j);
      assert File(es[j].audience, bundle) in space;
    } else {
      assert forall i :: 0 <= i < |es| ==> !Exports(es[i], bundle) by { FirstOfExports(es, bundle); }
      UnusedUntilExported(w, es, bundle);
    }
  }

  lemma BornRevoked(es: seq<Event>, j: nat)
    requires j < |es| && es[j].Export?
    ensures es[j].audience == REVOCATIONS ==> RevokedSince(es, j)
  {
  }

  lemma {:induction false} FirstOfExports(es: seq<Event>, bundle: string)
    ensures (exists i :: 0 <= i < |es| && Exports(es[i], bundle)) ==> exists j: nat :: FirstExport(es, bundle, j)
  {
    if es == [] {
    } else {
      var init := es[..|es| - 1];
      FirstOfExports(init, bundle);
      if j: nat :| FirstExport(init, bundle, j) {
        assert FirstExport(es, bundle, j);
      } else if Exports(es[|es| - 1], bundle) {
        assert forall i :: 0 <= i < |init| ==> es[i] == init[i];
        assert FirstExport(es, bundle, |es| - 1);
      }
    }
  }
}
