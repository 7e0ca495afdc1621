/** JSON trees. An object keeps its members in document order, as a Python dict does. */
module Json {
  datatype Json =
    | Null
    | Bool(b: bool)
    | Num(n: int)
    | Str(s: string)
    | Arr(items: seq<Json>)
    | Obj(members: seq<Member>)

  datatype Member = Member(key: string, value: Json)

  predicate HasKey(ms: seq<Member>, key: string) {
    ms != [] && (ms[0].key == key || HasKey(ms[1..], key))
  }

  function Get(ms: seq<Member>, key: string): Json
    requires HasKey(ms, key)
  {
    if ms[0].key == key then ms[0].value else Get(ms[1..], key)
  }

  /** node is an object that holds this value under a key (under a repeated key, the first). */
  predicate Holds(node: Json, key: string, value: Json) {
    node.Obj? && exists i ::
      && 0 <= i < |node.members| && node.members[i] == Member(key, value)
      && forall j :: 0 <= j < i ==> node.members[j].key != key
  }

  lemma HoldsFirst(ms: seq<Member>, key: string, value: Json)
    requires ms != [] && ms[0].key == key
    ensures Holds(Obj(ms), key, value) <==> ms[0].value == value
  {
    if ms[0].value == value {
      assert ms[0] == Member(key, value);
    }
  }

  lemma HoldsLater(ms: seq<Member>, key: string, value: Json)
    requires ms != [] && ms[0].key != key
    ensures Holds(Obj(ms), key, value) <==> Holds(Obj(ms[1..]), key, value)
  {
    var rest := ms[1..];
    if Holds(Obj(rest), key, value) {
      var i :| 0 <= i < |rest| && rest[i] == Member(key, value) && forall j :: 0 <= j < i ==> rest[j].key != key;
      assert ms[i + 1] == Member(key, value);
      forall j | 0 <= j < i + 1 ensures ms[j].key != key {
        if j > 0 { assert ms[j] == rest[j - 1]; }
      }
    }
    if Holds(Obj(ms), key, value) {
      var i :| 0 <= i < |ms| && ms[i] == Member(key, value) && forall j :: 0 <= j < i ==> ms[j].key != key;
      assert rest[i - 1] == Member(key, value);
      forall j | 0 <= j < i - 1 ensures rest[j].key != key { assert rest[j] == ms[j + 1]; }
    }
  }

  lemma {:induction false} HoldsExactly(ms: seq<Member>, key: string, value: Json)
    ensures Holds(Obj(ms), key, value) <==> HasKey(ms, key) && Get(ms, key) == value
  {
    if ms == [] {
    } else {
      hide Holds;
      if ms[0].key == key {
        HoldsFirst(ms, key, value);
      } else {
        HoldsLater(ms, key, value);
        HoldsExactly(ms[1..], key, value);
      }
    }
  }
}

/** Intra-document `$ref` expansion (http_tools/openapi.py). */
module OpenApi {
  import opened Prelude
  import opened Json

  datatype RefError =
    | External(ref: string)
    | Cyclic(ref: string)
    | NotFound(ref: string)
    | NotObject(ref: string)

  /** The reference string of an object that is a Reference Object for the resolver. */
  function RefOf(ms: seq<Member>): Option<string> {
    if HasKey(ms, "$ref") && Get(ms, "$ref").Str? then Some(Get(ms, "$ref").s) else None
  }

  lemma RefExactly(ms: seq<Member>, ref: string)
    ensures RefOf(ms) == Some(ref) <==> Holds(Obj(ms), "$ref", Str(ref))
  {
    HoldsExactly(ms, "$ref", Str(ref));
  }

  // ---------------------------------------------------------------- pointers

  predicate Internal(ref: string) { |ref| >= 2 && ref[..2] == "#/" }

  /** Python's `text.split("/")`: always at least one piece. */
  function Split(text: string): (pieces: seq<string>)
    ensures |pieces| >= 1
  {
    if text == "" then [""]
    else
      var rest := Split(text[1..]);
      if text[0] == '/' then [""] + rest else [[text[0]] + rest[0]] + rest[1..]
  }

  /** Python's `"/".join(pieces)`. */
  function Joined(pieces: seq<string>): string
    requires pieces != []
  {
    if |pieces| == 1 then pieces[0] else pieces[0] + "/" + Joined(pieces[1..])
  }

  predicate SlashFree(pieces: seq<string>) { forall i :: 0 <= i < |pieces| ==> '/' !in pieces[i] }

  lemma JoinedGrows(c: char, pieces: seq<string>)
    requires pieces != []
    ensures Joined([[c] + pieces[0]] + pieces[1..]) == [c] + Joined(pieces)
  {
    var longer := [[c] + pieces[0]] + pieces[1..];
    if |pieces| > 1 {
      assert longer[1..] == pieces[1..];
      assert ([c] + pieces[0]) + "/" + Joined(pieces[1..]) == [c] + (pieces[0] + "/" + Joined(pieces[1..]));
    }
  }

  lemma {:induction false} SplitJoins(text: string)
    ensures Joined(Split(text)) == text && SlashFree(Split(text))
  {
    if text == "" {
    } else {
      var rest := Split(text[1..]);
      SplitJoins(text[1..]);
      assert text == [text[0]] + text[1..];
      if text[0] == '/' {
        assert ([""] + rest)[1..] == rest;
        assert "" + "/" + Joined(rest) == text;
      } else {
        JoinedGrows(text[0], rest);
      }
    }
  }

  lemma {:induction false} JoinSplits(pieces: seq<string>)
    requires pieces != [] && SlashFree(pieces)
    ensures Split(Joined(pieces)) == pieces
    decreases |pieces|, if pieces == [] then 0 else |pieces[0]|
  {
    var text := Joined(pieces);
    if pieces[0] != "" {
      var c, fewer := pieces[0][0], [pieces[0][1..]] + pieces[1..];
      assert [[c] + fewer[0]] + fewer[1..] == pieces by { assert pieces[0] == [c] + pieces[0][1..]; }
      JoinedGrows(c, fewer);
      assert text[0] == c && text[1..] == Joined(fewer);
      assert c in pieces[0];
      JoinSplits(fewer);
    } else if |pieces| > 1 {
      assert text == "/" + Joined(pieces[1..]);
      assert text[1..] == Joined(pieces[1..]);
      JoinSplits(pieces[1..]);
      assert [""] + pieces[1..] == pieces;
    }
  }

  /** Splitting, exactly: the one list of slash-free pieces that joined by slashes give the text back. */
  lemma SplitExactly(text: string, pieces: seq<string>)
    ensures pieces == Split(text) <==> pieces != [] && SlashFree(pieces) && Joined(pieces) == text
  {
    SplitJoins(text);
    if pieces != [] && SlashFree(pieces) && Joined(pieces) == text {
      JoinSplits(pieces);
    }
  }

  function Walk(node: Json, path: seq<string>): Option<Json>
    decreases |path|
  {
    if path == [] then Some(node)
    else if node.Obj? && HasKey(node.members, path[0]) then Walk(Get(node.members, path[0]), path[1..])
    else None
  }

  /** What an internal reference points at, before any further expansion. */
  function Target(spec: Json, ref: string): Result<Json, RefError>
    requires Internal(ref)
  {
    match Walk(spec, Split(ref[2..]))
    case None => Err(NotFound(ref))
    case Some(node) => if node.Obj? then Ok(node) else Err(NotObject(ref))
  }

  /** From the document along the segments: each node is what the one before holds under the next segment. */
  predicate Leads(spec: Json, segments: seq<string>, nodes: seq<Json>) {
    && |nodes| == |segments| + 1 && nodes[0] == spec
    && forall i :: 0 <= i < |segments| ==> Holds(nodes[i], segments[i], nodes[i + 1])
  }

  lemma {:induction false} WalkLeads(spec: Json, path: seq<string>) returns (nodes: seq<Json>)
    requires Walk(spec, path).Some?
    ensures Leads(spec, path, nodes) && nodes[|path|] == Walk(spec, path).value
    decreases |path|
  {
    if path == [] {
      nodes := [spec];
    } else {
      var child := Get(spec.members, path[0]);
      HoldsExactly(spec.members, path[0], child);
      var rest := WalkLeads(child, path[1..]);
      nodes := [spec] + rest;
      forall i | 0 <= i < |path| ensures Holds(nodes[i], path[i], nodes[i + 1]) {
        if i > 0 { assert Holds(rest[i - 1], path[1..][i - 1], rest[i]); }
      }
    }
  }

  lemma {:induction false} LeadsToWalk(spec: Json, path: seq<string>, nodes: seq<Json>)
    requires Leads(spec, path, nodes)
    ensures Walk(spec, path) == Some(nodes[|path|])
    decreases |path|
  {
    if path == [] {
    } else {
      assert Holds(nodes[0], path[0], nodes[1]);
      HoldsExactly(spec.members, path[0], nodes[1]);
      forall i | 0 <= i < |path| - 1 ensures Holds(nodes[1..][i], path[1..][i], nodes[1..][i + 1]) {
        assert Holds(nodes[i + 1], path[i + 1], nodes[i + 2]);
      }
      LeadsToWalk(nodes[1], path[1..], nodes[1..]);
    }
  }

  /**
   * What a reference `#/...` names, exactly: the object at the end of the nodes its segments lead
   * along. Not found means that they lead nowhere, and not an object that they end at something else.
   */
  lemma TargetExactly(spec: Json, text: string, v: Json)
    ensures var (ref, segments) := ("#/" + text, Split(text));
      && Internal(ref)
      && (Target(spec, ref) == Ok(v)
          <==> v.Obj? && exists nodes :: Leads(spec, segments, nodes) && nodes[|segments|] == v)
      && (Target(spec, ref) == Err(NotObject(ref))
          <==> exists nodes: seq<Json> :: Leads(spec, segments, nodes) && !nodes[|segments|].Obj?)
      && (Target(spec, ref) == Err(NotFound(ref)) <==> forall nodes :: !Leads(spec, segments, nodes))
  {
    hide Holds;
    var ref, segments := "#/" + text, Split(text);
    assert ref[..2] == "#/" && ref[2..] == text;
    if Walk(spec, segments).Some? {
      var nodes := WalkLeads(spec, segments);
    }
    forall nodes | Leads(spec, segments, nodes) ensures Walk(spec, segments) == Some(nodes[|segments|]) {
      LeadsToWalk(spec, segments, nodes);
    }
  }

  /** The pointer loop of `_resolve_ref`. */
  method FollowPointer(spec: Json, ref: string) returns (r: Result<Json, RefError>)
    requires Internal(ref)
    ensures r == Target(spec, ref)
  {
    var node := spec;
    var path := Split(ref[2..]);
    var i := 0;
    while i < |path|
      invariant 0 <= i <= |path|
      invariant Walk(spec, path) == Walk(node, path[i..])
    {
      if !node.Obj? || !HasKey(node.members, path[i]) {
        return Err(NotFound(ref));
      }
      assert path[i..][1..] == path[i + 1..];
      node := Get(node.members, path[i]);
      i := i + 1;
    }
    return if node.Obj? then Ok(node) else Err(NotObject(ref));
  }

  // --------------------------------------------------------------- expansion

  /** Every string-valued `$ref` anywhere in the tree, followed or not. */
  function AllRefs(node: Json): set<string> {
    match node
    case Arr(items) => ItemRefs(items)
    case Obj(ms) => MemberRefs(ms) + (match RefOf(ms) case Some(r) => {r} case None => {})
    case _ => {}
  }

  function ItemRefs(items: seq<Json>): set<string> {
    if items == [] then {} else AllRefs(items[0]) + ItemRefs(items[1..])
  }

  function MemberRefs(ms: seq<Member>): set<string> {
    if ms == [] then {} else AllRefs(ms[0].value) + MemberRefs(ms[1..])
  }

  /** The termination measure: how many reference strings can still be followed. */
  function Rank(spec: Json, refs: set<string>, visited: set<string>): nat {
    |AllRefs(spec) + refs - visited|
  }

  lemma {:induction false} WalkRefs(node: Json, path: seq<string>)
    ensures Walk(node, path).Some? ==> AllRefs(Walk(node, path).value) <= AllRefs(node)
    decreases |path|
  {
    if path != [] && node.Obj? && HasKey(node.members, path[0]) {
      var child := Get(node.members, path[0]);
      MemberRefsAt(node.members, path[0]);
      WalkRefs(child, path[1..]);
    }
  }

  lemma {:induction false} MemberRefsAt(ms: seq<Member>, key: string)
    requires HasKey(ms, key)
    ensures AllRefs(Get(ms, key)) <= MemberRefs(ms)
  {
    if ms[0].key != key {
      MemberRefsAt(ms[1..], key);
    }
  }

  lemma {:induction false} SubsetCard<T>(a: set<T>, b: set<T>)
    requires a <= b
    ensures |a| <= |b|
    ensures a != b ==> |a| < |b|
  {
    assert a + (b - a) == b;
    if a != b {
      var x :| x in b - a;
    }
  }

  lemma RankGrows(spec: Json, refs: set<string>, more: set<string>, visited: set<string>)
    requires refs <= more
    ensures Rank(spec, refs, visited) <= Rank(spec, more, visited)
  {
    SubsetCard(AllRefs(spec) + refs - visited, AllRefs(spec) + more - visited);
  }

  /** Following an unvisited reference leaves strictly fewer references to follow. */
  lemma JumpShrinks(spec: Json, ref: string, refs: set<string>, visited: set<string>)
    requires Internal(ref) && Target(spec, ref).Ok? && ref !in visited && ref in refs
    ensures Rank(spec, AllRefs(Target(spec, ref).value), visited + {ref}) < Rank(spec, refs, visited)
  {
    WalkRefs(spec, Split(ref[2..]));
    var small := AllRefs(spec) + AllRefs(Target(spec, ref).value) - (visited + {ref});
    var big := AllRefs(spec) + refs - visited;
    assert small <= big && ref in big && ref !in small;
    SubsetCard(small, big);
  }

  /** `_resolve_ref`: the checks in source order, then the jump. */
  function ExpandRef(spec: Json, ref: string, visited: set<string>): Result<Json, RefError>
    decreases Rank(spec, {ref}, visited), 0
  {
    if !Internal(ref) then Err(External(ref))
    else if ref in visited then Err(Cyclic(ref))
    else
      var target :- Target(spec, ref);
      JumpShrinks(spec, ref, {ref}, visited);
      Expand(spec, target, visited + {ref})
  }

  /** `_resolve_ref_recursive`. */
  function Expand(spec: Json, node: Json, visited: set<string>): Result<Json, RefError>
    decreases Rank(spec, AllRefs(node), visited), 1, node
  {
    match node
    case Arr(items) =>
      var out :- ExpandItems(spec, items, visited);
      Ok(Arr(out))
    case Obj(ms) =>
      (match RefOf(ms)
       case Some(ref) =>
         RankGrows(spec, {ref}, AllRefs(node), visited);
         ExpandRef(spec, ref, visited)
       case None =>
         RankGrows(spec, MemberRefs(ms), AllRefs(node), visited);
         var out :- ExpandMembers(spec, ms, visited);
         Ok(Obj(out)))
    case _ => Ok(node)
  }

  function ExpandItems(spec: Json, items: seq<Json>, visited: set<string>): (r: Result<seq<Json>, RefError>)
    ensures r.Ok? ==> |r.value| == |items|
    decreases Rank(spec, ItemRefs(items), visited), 1, items
  {
    if items == [] then Ok([])
    else
      RankGrows(spec, AllRefs(items[0]), ItemRefs(items), visited);
      RankGrows(spec, ItemRefs(items[1..]), ItemRefs(items), visited);
      var head :- Expand(spec, items[0], visited);
      var tail :- ExpandItems(spec, items[1..], visited);
      Ok([head] + tail)
  }

  function ExpandMembers(spec: Json, ms: seq<Member>, visited: set<string>): (r: Result<seq<Member>, RefError>)
    ensures r.Ok? ==> |r.value| == |ms|
    decreases Rank(spec, MemberRefs(ms), visited), 1, ms
  {
    if ms == [] then Ok([])
    else
      RankGrows(spec, AllRefs(ms[0].value), MemberRefs(ms), visited);
      RankGrows(spec, MemberRefs(ms[1..]), MemberRefs(ms), visited);
      var head :- Expand(spec, ms[0].value, visited);
      var tail :- ExpandMembers(spec, ms[1..], visited);
      Ok([Member(ms[0].key, head)] + tail)
  }
}

/** Merging path-level and operation-level parameters (`_parse_operation`). */
module OpenApiParameters {
  import opened Prelude
  import opened Json
  import opened OpenApi

  type Key = (string, string)

  datatype Entry = Entry(key: Key, param: Json)

  /** The (name, in) pair of a well-formed parameter object. */
  function KeyOf(p: Json): Option<Key> {
    if p.Obj? && HasKey(p.members, "name") && HasKey(p.members, "in")
       && Get(p.members, "name").Str? && Get(p.members, "in").Str?
    then Some((Get(p.members, "name").s, Get(p.members, "in").s))
    else None
  }

  predicate Carries(p: Json, key: Key) { Holds(p, "name", Str(key.0)) && Holds(p, "in", Str(key.1)) }

  /** A parameter's key is made of the strings it holds as its name and its location, and of nothing less. */
  lemma KeyExactly(p: Json, key: Key)
    ensures KeyOf(p) == Some(key) <==> Carries(p, key)
  {
    hide Holds;
    if p.Obj? {
      HoldsExactly(p.members, "name", Str(key.0));
      HoldsExactly(p.members, "in", Str(key.1));
    } else {
      NothingHeld(p, "name", Str(key.0));
    }
  }

  lemma NothingHeld(p: Json, key: string, value: Json)
    requires !p.Obj?
    ensures !Holds(p, key, value)
  {
  }

  /** Assignment into an insertion-ordered dict. */
  function Put(d: seq<Entry>, key: Key, p: Json): seq<Entry> {
    if d == [] then [Entry(key, p)]
    else if d[0].key == key then [Entry(key, p)] + d[1..]
    else [d[0]] + Put(d[1..], key, p)
  }

  function MergeAll(ps: seq<Json>): seq<Entry> {
    if ps == [] then []
    else
      var before, p := MergeAll(ps[..|ps| - 1]), ps[|ps| - 1];
      if KeyOf(p).Some? then Put(before, KeyOf(p).value, p) else before
  }

  /** The keys in order of first appearance, each once. */
  function FirstKeys(ps: seq<Json>): seq<Key> {
    if ps == [] then []
    else
      var before, k := FirstKeys(ps[..|ps| - 1]), KeyOf(ps[|ps| - 1]);
      if k.None? || k.value in before then before else before + [k.value]
  }

  /** The last parameter that carries a key. */
  function LastWith(ps: seq<Json>, key: Key): Option<Json> {
    if ps == [] then None
    else if KeyOf(ps[|ps| - 1]) == Some(key) then Some(ps[|ps| - 1])
    else LastWith(ps[..|ps| - 1], key)
  }

  predicate Listed(d: seq<Entry>, keys: seq<Key>) {
    |d| == |keys| && forall i :: 0 <= i < |d| ==> d[i].key == keys[i]
  }

  lemma PutStep(d: seq<Entry>, key: Key, p: Json)
    requires d != []
    ensures Put(d, key, p) == if d[0].key == key then [Entry(key, p)] + d[1..] else [d[0]] + Put(d[1..], key, p)
  {
  }

  function KeysIn(d: seq<Entry>): seq<Key> {
    if d == [] then [] else [d[0].key] + KeysIn(d[1..])
  }

  lemma {:induction false} ListedIsKeysIn(d: seq<Entry>, keys: seq<Key>)
    ensures Listed(d, keys) <==> keys == KeysIn(d)
  {
    if d == [] {
    } else if keys == [] {
    } else {
      ListedIsKeysIn(d[1..], keys[1..]);
      assert keys == [keys[0]] + keys[1..];
      assert Listed(d, keys) <==> d[0].key == keys[0] && Listed(d[1..], keys[1..]) by {
        assert |d| == |keys| ==> forall i :: 1 <= i < |d| ==> d[i] == d[1..][i - 1] && keys[i] == keys[1..][i - 1];
      }
    }
  }

  lemma {:induction false} PutKeys(d: seq<Entry>, key: Key, p: Json)
    ensures KeysIn(Put(d, key, p)) == if key in KeysIn(d) then KeysIn(d) else KeysIn(d) + [key]
  {
    hide Put;
    if d == [] {
      PutFirst(key, p);
    } else {
      PutStep(d, key, p);
      if d[0].key != key {
        PutKeys(d[1..], key, p);
      }
    }
  }

  lemma PutFirst(key: Key, p: Json)
    ensures Put([], key, p) == [Entry(key, p)]
  {
  }

  lemma {:induction false} PutParams(d: seq<Entry>, keys: seq<Key>, key: Key, p: Json, i: nat)
    requires Listed(d, keys) && Distinct(keys) && i < |Put(d, key, p)|
    ensures Put(d, key, p)[i].key == key ==> Put(d, key, p)[i].param == p
    ensures Put(d, key, p)[i].key != key ==> i < |d| && Put(d, key, p)[i] == d[i]
  {
    hide Put;
    if d == [] {
      PutFirst(key, p);
    } else {
      PutStep(d, key, p);
      if d[0].key != key && i > 0 {
        PutParams(d[1..], keys[1..], key, p, i - 1);
      } else if i > 0 {
        assert keys[0] != keys[i];
      }
    }
  }

  lemma PutKeepsOrder(d: seq<Entry>, keys: seq<Key>, key: Key, p: Json)
    requires Listed(d, keys) && Distinct(keys)
    ensures var out := Put(d, key, p);
      && Listed(out, if key in keys then keys else keys + [key])
      && forall i :: 0 <= i < |out| ==> out[i].param == if out[i].key == key then p else d[i].param
  {
    hide Put, Distinct, Listed, KeysIn;
    ListedIsKeysIn(d, keys);
    PutKeys(d, key, p);
    ListedIsKeysIn(Put(d, key, p), if key in keys then keys else keys + [key]);
    forall i: nat | i < |Put(d, key, p)|
      ensures Put(d, key, p)[i].key == key ==> Put(d, key, p)[i].param == p
      ensures Put(d, key, p)[i].key != key ==> i < |d| && Put(d, key, p)[i] == d[i]
    {
      PutParams(d, keys, key, p, i);
    }
  }

  /** A key is listed exactly when some parameter carries it. */
  lemma {:induction false} KeysAreCarried(ps: seq<Json>, key: Key)
    ensures key in FirstKeys(ps) <==> exists p :: p in ps && Carries(p, key)
    ensures key in FirstKeys(ps) <==> LastWith(ps, key).Some?
  {
    if ps == [] {
    } else {
      var before, p := ps[..|ps| - 1], ps[|ps| - 1];
      assert ps == before + [p];
      KeyExactly(p, key);
      hide Carries;
      KeysAreCarried(before, key);
    }
  }

  /**
   * The merged dict, exactly: one entry per (name, in), in order of first appearance, holding
   * the last parameter that carries the key. Parameters without a string name and location drop out.
   */
  lemma {:induction false} MergeIsLastPerKey(ps: seq<Json>)
    ensures Listed(MergeAll(ps), FirstKeys(ps)) && Distinct(FirstKeys(ps))
    ensures forall i :: 0 <= i < |MergeAll(ps)| ==> LastWith(ps, FirstKeys(ps)[i]) == Some(MergeAll(ps)[i].param)
  {
    if ps == [] {
    } else {
      var before, p := ps[..|ps| - 1], ps[|ps| - 1];
      MergeIsLastPerKey(before);
      if KeyOf(p).Some? {
        var key := KeyOf(p).value;
        PutKeepsOrder(MergeAll(before), FirstKeys(before), key, p);
        forall i | 0 <= i < |MergeAll(ps)| ensures LastWith(ps, FirstKeys(ps)[i]) == Some(MergeAll(ps)[i].param) {
          assert MergeAll(ps)[i].key == FirstKeys(ps)[i];
          if FirstKeys(ps)[i] != key { assert FirstKeys(ps)[i] == FirstKeys(before)[i]; }
        }
      }
    }
  }

  lemma {:induction false} KeylessVanishes(before: seq<Json>, p: Json, after: seq<Json>)
    requires KeyOf(p).None?
    ensures MergeAll(before + [p] + after) == MergeAll(before + after)
  {
    if after == [] {
      assert before + [p] + after == before + [p] && before + after == before;
      assert (before + [p])[..|before|] == before;
    } else {
      var init := after[..|after| - 1];
      KeylessVanishes(before, p, init);
      assert (before + [p] + after)[..|before| + |after|] == before + [p] + init;
      assert (before + after)[..|before + after| - 1] == before + init;
    }
  }

  /**
   * A parameter leaves no trace wherever it is listed if and only if it lacks a string name or
   * location itself. Merging comes before references are followed, so one given only as a `$ref`
   * is lost.
   */
  lemma VanishesExactly(p: Json)
    ensures (forall before, after :: MergeAll(before + [p] + after) == MergeAll(before + after))
       <==> forall key :: !Carries(p, key)
    ensures p.Obj? && RefOf(p.members).Some? && !(HasKey(p.members, "name") && HasKey(p.members, "in")) ==>
        forall key :: !Carries(p, key)
  {
    hide Carries;
    forall key ensures KeyOf(p) == Some(key) <==> Carries(p, key) { KeyExactly(p, key); }
    if KeyOf(p).None? {
      forall before, after ensures MergeAll(before + [p] + after) == MergeAll(before + after) {
        KeylessVanishes(before, p, after);
      }
    } else {
      var none: seq<Json> := [];
      assert Carries(p, KeyOf(p).value);
      assert none + [p] + none == [p] && none + none == none && [p][..0] == none;
      assert MergeAll(none + [p] + none) != MergeAll(none + none);
    }
  }

  /** Operation-level parameters win: a key declared by the operation never keeps a path-level value. */
  lemma {:induction false} OperationOverridesPath(path: seq<Json>, op: seq<Json>, key: Key)
    ensures LastWith(path + op, key) == if LastWith(op, key).Some? then LastWith(op, key) else LastWith(path, key)
  {
    if op == [] {
      assert path + op == path;
    } else {
      assert (path + op)[..|path + op| - 1] == path + op[..|op| - 1];
      OperationOverridesPath(path, op[..|op| - 1], key);
    }
  }

  function ExpandAll(spec: Json, d: seq<Entry>): Result<seq<Json>, RefError> {
    if d == [] then Ok([])
    else
      var before :- ExpandAll(spec, d[..|d| - 1]);
      var last :- Expand(spec, d[|d| - 1].param, {});
      Ok(before + [last])
  }

  /** All values in order if each expands, and otherwise the error of the first that does not. */
  lemma {:induction false} ExpandAllExactly(spec: Json, d: seq<Entry>)
    ensures ExpandAll(spec, d).Ok? <==> forall i :: 0 <= i < |d| ==> Expand(spec, d[i].param, {}).Ok?
    ensures ExpandAll(spec, d).Ok? ==>
        && |ExpandAll(spec, d).value| == |d|
        && forall i :: 0 <= i < |d| ==> Expand(spec, d[i].param, {}) == Ok(ExpandAll(spec, d).value[i])
    ensures ExpandAll(spec, d).Err? ==>
        exists k :: && 0 <= k < |d| && Expand(spec, d[k].param, {}) == Err(ExpandAll(spec, d).error)
                    && forall i :: 0 <= i < k ==> Expand(spec, d[i].param, {}).Ok?
  {
    hide Expand;
    if d == [] {
    } else {
      var init := d[..|d| - 1];
      ExpandAllExactly(spec, init);
      assert forall i :: 0 <= i < |init| ==> init[i] == d[i];
      if ExpandAll(spec, init).Err? {
        var k :| && 0 <= k < |init| && Expand(spec, init[k].param, {}) == Err(ExpandAll(spec, init).error)
                 && forall i :: 0 <= i < k ==> Expand(spec, init[i].param, {}).Ok?;
        assert d[k] == init[k];
        assert Expand(spec, d[k].param, {}).Err?;
      }
    }
  }

  lemma {:induction false} ExpandAllPrefix(spec: Json, d: seq<Entry>, i: nat)
    requires i <= |d| && ExpandAll(spec, d[..i]).Err?
    ensures ExpandAll(spec, d) == ExpandAll(spec, d[..i])
  {
    if i < |d| {
      var e := d[..|d| - 1];
      assert e[..i] == d[..i];
      ExpandAllPrefix(spec, e, i);
    } else {
      assert d[..i] == d;
    }
  }

  /** The parameter half of `_parse_operation`: merge into a dict, then expand each value. */
  method ParseParameters(spec: Json, path: seq<Json>, op: seq<Json>) returns (r: Result<seq<Json>, RefError>)
    ensures r == ExpandAll(spec, MergeAll(path + op))
  {
    var ps := path + op;
    var merged: seq<Entry> := [];
    for i := 0 to |ps|
      invariant merged == MergeAll(ps[..i])
    {
      assert ps[..i + 1][..i] == ps[..i];
      match KeyOf(ps[i])
      case Some(key) => merged := Put(merged, key, ps[i]);
      case None =>
    }
    assert ps[..|ps|] == ps;
    var out := [];
    for i := 0 to |merged|
      invariant ExpandAll(spec, merged[..i]) == Ok(out)
    {
      assert merged[..i + 1][..i] == merged[..i];
      var v := Expand(spec, merged[i].param, {});
      if v.Err? {
        ExpandAllPrefix(spec, merged, i + 1);
        return Err(v.error);
      }
      out := out + [v.value];
    }
    assert merged[..|merged|] == merged;
    return Ok(out);
  }
}
