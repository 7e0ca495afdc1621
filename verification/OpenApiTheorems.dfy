/** What `$ref` expansion promises: when it succeeds, with which value, and what its errors mean. */
module OpenApiTheorems {
  import opened Prelude
  import opened Json
  import opened OpenApi

  // ------------------------------------------------------- reference chains

  /** References met when walking a tree without following any of them. */
  function Surface(node: Json): set<string> {
    match node
    case Arr(items) => ItemSurface(items)
    case Obj(ms) => (match RefOf(ms) case Some(r) => {r} case None => MemberSurface(ms))
    case _ => {}
  }

  function ItemSurface(items: seq<Json>): set<string> {
    if items == [] then {} else Surface(items[0]) + ItemSurface(items[1..])
  }

  function MemberSurface(ms: seq<Member>): set<string> {
    if ms == [] then {} else Surface(ms[0].value) + MemberSurface(ms[1..])
  }

  predicate Resolves(spec: Json, ref: string) { Internal(ref) && Target(spec, ref).Ok? }

  /** c is a path through the reference graph that starts in node. */
  ghost predicate Chain(spec: Json, node: Json, c: seq<string>)
    decreases |c|
  {
    c == [] ||
    (&& c[0] in Surface(node)
     && (|c| == 1 || (Resolves(spec, c[0]) && Chain(spec, Target(spec, c[0]).value, c[1..]))))
  }

  /** Every reference on the path resolves to an object, is new, and occurs once. */
  ghost predicate Sound(spec: Json, c: seq<string>, visited: set<string>) {
    && (forall i :: 0 <= i < |c| ==> Resolves(spec, c[i]) && c[i] !in visited)
    && (forall i, j :: 0 <= i < j < |c| ==> c[i] != c[j])
  }

  ghost predicate LeadsNowhere(spec: Json, ref: string)
    requires Internal(ref)
  {
    forall nodes :: !Leads(spec, Split(ref[2..]), nodes)
  }

  ghost predicate LeadsToNoObject(spec: Json, ref: string)
    requires Internal(ref)
  {
    exists nodes: seq<Json> :: Leads(spec, Split(ref[2..]), nodes) && !nodes[|nodes| - 1].Obj?
  }

  lemma ErrorsOfTarget(spec: Json, ref: string)
    requires Internal(ref)
    ensures LeadsNowhere(spec, ref) <==> Target(spec, ref) == Err(NotFound(ref))
    ensures LeadsToNoObject(spec, ref) <==> Target(spec, ref) == Err(NotObject(ref))
  {
    assert ref == "#/" + ref[2..];
    TargetExactly(spec, ref[2..], spec);
  }

  /** The path c shows that error e is really there: it ends in e's reference, sound up to that point. */
  ghost predicate Explains(spec: Json, c: seq<string>, visited: set<string>, e: RefError) {
    && c != []
    && var last, before := c[|c| - 1], c[..|c| - 1];
    && last == e.ref
    && Sound(spec, before, visited)
    && match e
       case External(_) => !Internal(last)
       case Cyclic(_) => Internal(last) && (last in visited || last in before)
       case NotFound(_) => Internal(last) && LeadsNowhere(spec, last)
       case NotObject(_) => Internal(last) && LeadsToNoObject(spec, last)
  }

  lemma {:induction false} SurfaceExpands(spec: Json, node: Json, visited: set<string>, r: string)
    requires Expand(spec, node, visited).Ok? && r in Surface(node)
    ensures ExpandRef(spec, r, visited).Ok?
    decreases node
  {
    match node
    case Arr(items) => ItemSurfaceExpands(spec, items, visited, r);
    case Obj(ms) => if RefOf(ms).None? { MemberSurfaceExpands(spec, ms, visited, r); }
    case _ =>
  }

  lemma {:induction false} ItemSurfaceExpands(spec: Json, items: seq<Json>, visited: set<string>, r: string)
    requires ExpandItems(spec, items, visited).Ok? && r in ItemSurface(items)
    ensures ExpandRef(spec, r, visited).Ok?
    decreases items
  {
    if r in Surface(items[0]) {
      SurfaceExpands(spec, items[0], visited, r);
    } else {
      ItemSurfaceExpands(spec, items[1..], visited, r);
    }
  }

  lemma {:induction false} MemberSurfaceExpands(spec: Json, ms: seq<Member>, visited: set<string>, r: string)
    requires ExpandMembers(spec, ms, visited).Ok? && r in MemberSurface(ms)
    ensures ExpandRef(spec, r, visited).Ok?
    decreases ms
  {
    if r in Surface(ms[0].value) {
      SurfaceExpands(spec, ms[0].value, visited, r);
    } else {
      MemberSurfaceExpands(spec, ms[1..], visited, r);
    }
  }

  lemma {:induction false} FirstError(spec: Json, node: Json, visited: set<string>) returns (r: string)
    requires Expand(spec, node, visited).Err?
    ensures r in Surface(node) && r in AllRefs(node)
    ensures ExpandRef(spec, r, visited) == Err(Expand(spec, node, visited).error)
    decreases node
  {
    match node
    case Arr(items) => r := FirstItemError(spec, items, visited);
    case Obj(ms) => if RefOf(ms).None? { r := FirstMemberError(spec, ms, visited); } else { r := RefOf(ms).value; }
  }

  lemma {:induction false} FirstItemError(spec: Json, items: seq<Json>, visited: set<string>) returns (r: string)
    requires ExpandItems(spec, items, visited).Err?
    ensures r in ItemSurface(items) && r in ItemRefs(items)
    ensures ExpandRef(spec, r, visited) == Err(ExpandItems(spec, items, visited).error)
    decreases items
  {
    if Expand(spec, items[0], visited).Err? {
      r := FirstError(spec, items[0], visited);
    } else {
      r := FirstItemError(spec, items[1..], visited);
    }
  }

  lemma {:induction false} FirstMemberError(spec: Json, ms: seq<Member>, visited: set<string>) returns (r: string)
    requires ExpandMembers(spec, ms, visited).Err?
    ensures r in MemberSurface(ms) && r in MemberRefs(ms)
    ensures ExpandRef(spec, r, visited) == Err(ExpandMembers(spec, ms, visited).error)
    decreases ms
  {
    if Expand(spec, ms[0].value, visited).Err? {
      r := FirstError(spec, ms[0].value, visited);
    } else {
      r := FirstMemberError(spec, ms[1..], visited);
    }
  }

  lemma {:induction false} SuccessMakesChainsSound(spec: Json, node: Json, visited: set<string>, c: seq<string>)
    requires Expand(spec, node, visited).Ok? && Chain(spec, node, c)
    ensures Sound(spec, c, visited)
    decreases |c|
  {
    if c == [] {
    } else {
      SurfaceExpands(spec, node, visited, c[0]);
      var tail := c[1..];
      SuccessMakesChainsSound(spec, Target(spec, c[0]).value, visited + {c[0]}, tail);
      forall i | 0 <= i < |c| ensures Resolves(spec, c[i]) && c[i] !in visited {
        if i > 0 { assert c[i] == tail[i - 1]; }
      }
      forall i, j | 0 <= i < j < |c| ensures c[i] != c[j] {
        assert c[j] == tail[j - 1];
        if i > 0 { assert c[i] == tail[i - 1]; }
      }
    }
  }

  /** Every reported error is real: some path from the node explains it. */
  lemma {:induction false} ErrorIsExplained(spec: Json, node: Json, visited: set<string>) returns (c: seq<string>)
    requires Expand(spec, node, visited).Err?
    ensures Chain(spec, node, c)
    ensures Explains(spec, c, visited, Expand(spec, node, visited).error)
    decreases Rank(spec, AllRefs(node), visited)
  {
    var r := FirstError(spec, node, visited);
    var e := Expand(spec, node, visited).error;
    if Resolves(spec, r) && r !in visited {
      JumpShrinks(spec, r, AllRefs(node), visited);
      var tail := ErrorIsExplained(spec, Target(spec, r).value, visited + {r});
      c := [r] + tail;
      assert c[1..] == tail;
      ExplainsFromTail(spec, r, tail, visited, e);
    } else {
      c := [r];
      assert c[..0] == [];
      if Internal(r) {
        ErrorsOfTarget(spec, r);
      }
    }
  }

  lemma {:induction false} ExplainsFromTail(spec: Json, r: string, tail: seq<string>, visited: set<string>, e: RefError)
    requires Resolves(spec, r) && r !in visited
    requires Explains(spec, tail, visited + {r}, e)
    ensures Explains(spec, [r] + tail, visited, e)
  {
    var c := [r] + tail;
    var before := c[..|c| - 1];
    var inner := tail[..|tail| - 1];
    assert before == [r] + inner;
    assert c[|c| - 1] == tail[|tail| - 1];
    forall i, j | 0 <= i < j < |before| ensures before[i] != before[j] {
      assert before[j] == inner[j - 1];
    }
  }

  /**
   * Exactness. Expansion returns a value if and only if every reference reached along every
   * path is internal, targets an object and never reaches itself along that path.
   */
  lemma ExpandSucceedsExactly(spec: Json, node: Json, visited: set<string>)
    ensures Expand(spec, node, visited).Ok?
       <==> forall c | Chain(spec, node, c) :: Sound(spec, c, visited)
  {
    if Expand(spec, node, visited).Ok? {
      forall c | Chain(spec, node, c) ensures Sound(spec, c, visited) {
        SuccessMakesChainsSound(spec, node, visited, c);
      }
    } else {
      var c := ErrorIsExplained(spec, node, visited);
      UnsoundEnd(spec, c, visited, Expand(spec, node, visited).error);
    }
  }

  lemma UnsoundEnd(spec: Json, c: seq<string>, visited: set<string>, e: RefError)
    requires Explains(spec, c, visited, e)
    ensures !Sound(spec, c, visited)
  {
    var last := c[|c| - 1];
    if Internal(last) {
      ErrorsOfTarget(spec, last);
    }
    assert Resolves(spec, last) ==> e.Cyclic?;
    if e.Cyclic? && last !in visited {
      var i :| 0 <= i < |c| - 1 && c[..|c| - 1][i] == last;
      assert c[i] == last;
    }
  }

  /** One successful jump: same result as expanding the target, with fewer references left. */
  lemma Jump(spec: Json, ms: seq<Member>, visited: set<string>)
    requires RefOf(ms).Some? && Expand(spec, Obj(ms), visited).Ok?
    ensures var r := RefOf(ms).value;
      && Resolves(spec, r) && Target(spec, r).value.Obj? && r !in visited
      && Expand(spec, Obj(ms), visited) == Expand(spec, Target(spec, r).value, visited + {r})
      && Rank(spec, AllRefs(Target(spec, r).value), visited + {r}) < Rank(spec, AllRefs(Obj(ms)), visited)
  {
    JumpShrinks(spec, RefOf(ms).value, AllRefs(Obj(ms)), visited);
  }

  // ------------------------------------------------------ naive unfolding

  /** The meaning of a document: plain substitution, at most n jumps deep, with no bookkeeping. */
  function Unfold(spec: Json, node: Json, n: nat): Option<Json>
    decreases n, 1, node
  {
    match node
    case Arr(items) => (match UnfoldItems(spec, items, n) case Some(out) => Some(Arr(out)) case None => None)
    case Obj(ms) =>
      (match RefOf(ms)
       case Some(ref) => UnfoldRef(spec, ref, n)
       case None => (match UnfoldMembers(spec, ms, n) case Some(out) => Some(Obj(out)) case None => None))
    case _ => Some(node)
  }

  function UnfoldRef(spec: Json, ref: string, n: nat): Option<Json>
    decreases n, 0
  {
    if n == 0 || !Resolves(spec, ref) then None else Unfold(spec, Target(spec, ref).value, n - 1)
  }

  function UnfoldItems(spec: Json, items: seq<Json>, n: nat): Option<seq<Json>>
    decreases n, 1, items
  {
    if items == [] then Some([])
    else match (Unfold(spec, items[0], n), UnfoldItems(spec, items[1..], n))
      case (Some(h), Some(t)) => Some([h] + t)
      case _ => None
  }

  function UnfoldMembers(spec: Json, ms: seq<Member>, n: nat): Option<seq<Member>>
    decreases n, 1, ms
  {
    if ms == [] then Some([])
    else match (Unfold(spec, ms[0].value, n), UnfoldMembers(spec, ms[1..], n))
      case (Some(h), Some(t)) => Some([Member(ms[0].key, h)] + t)
      case _ => None
  }

  lemma {:induction false} ExpandUnfolds(spec: Json, node: Json, visited: set<string>, n: nat)
    requires Expand(spec, node, visited).Ok?
    requires Rank(spec, AllRefs(node), visited) <= n
    ensures Unfold(spec, node, n) == Some(Expand(spec, node, visited).value)
    decreases n, 1, node
  {
    hide Rank;
    match node
    case Arr(items) => ItemsUnfold(spec, items, visited, n);
    case Obj(ms) =>
      if RefOf(ms).Some? {
        var r := RefOf(ms).value;
        Jump(spec, node.members, visited);
        ExpandUnfolds(spec, Target(spec, r).value, visited + {r}, n - 1);
      } else {
        RankGrows(spec, MemberRefs(ms), AllRefs(node), visited);
        MembersUnfold(spec, ms, visited, n);
      }
    case _ =>
  }

  lemma {:induction false} ItemsUnfold(spec: Json, items: seq<Json>, visited: set<string>, n: nat)
    requires ExpandItems(spec, items, visited).Ok?
    requires Rank(spec, ItemRefs(items), visited) <= n
    ensures UnfoldItems(spec, items, n) == Some(ExpandItems(spec, items, visited).value)
    decreases n, 1, items
  {
    hide Rank;
    if items == [] {
    } else {
      RankGrows(spec, AllRefs(items[0]), ItemRefs(items), visited);
      RankGrows(spec, ItemRefs(items[1..]), ItemRefs(items), visited);
      ExpandUnfolds(spec, items[0], visited, n);
      ItemsUnfold(spec, items[1..], visited, n);
    }
  }

  lemma {:induction false} MembersUnfold(spec: Json, ms: seq<Member>, visited: set<string>, n: nat)
    requires ExpandMembers(spec, ms, visited).Ok?
    requires Rank(spec, MemberRefs(ms), visited) <= n
    ensures UnfoldMembers(spec, ms, n) == Some(ExpandMembers(spec, ms, visited).value)
    decreases n, 1, ms
  {
    hide Rank;
    if ms == [] {
    } else {
      RankGrows(spec, AllRefs(ms[0].value), MemberRefs(ms), visited);
      RankGrows(spec, MemberRefs(ms[1..]), MemberRefs(ms), visited);
      ExpandUnfolds(spec, ms[0].value, visited, n);
      MembersUnfold(spec, ms[1..], visited, n);
    }
  }

  lemma {:induction false} UnfoldSurface(spec: Json, node: Json, n: nat, r: string)
    requires Unfold(spec, node, n).Some? && r in Surface(node)
    ensures UnfoldRef(spec, r, n).Some?
    decreases node
  {
    match node
    case Arr(items) => UnfoldItemSurface(spec, items, n, r);
    case Obj(ms) => if RefOf(ms).None? { UnfoldMemberSurface(spec, ms, n, r); }
    case _ =>
  }

  lemma {:induction false} UnfoldItemSurface(spec: Json, items: seq<Json>, n: nat, r: string)
    requires UnfoldItems(spec, items, n).Some? && r in ItemSurface(items)
    ensures UnfoldRef(spec, r, n).Some?
    decreases items
  {
    if r in Surface(items[0]) {
      UnfoldSurface(spec, items[0], n, r);
    } else {
      UnfoldItemSurface(spec, items[1..], n, r);
    }
  }

  lemma {:induction false} UnfoldMemberSurface(spec: Json, ms: seq<Member>, n: nat, r: string)
    requires UnfoldMembers(spec, ms, n).Some? && r in MemberSurface(ms)
    ensures UnfoldRef(spec, r, n).Some?
    decreases ms
  {
    if r in Surface(ms[0].value) {
      UnfoldSurface(spec, ms[0].value, n, r);
    } else {
      UnfoldMemberSurface(spec, ms[1..], n, r);
    }
  }

  /** Following a path costs one level per reference. */
  lemma {:induction false} UnfoldAlongChain(spec: Json, node: Json, n: nat, c: seq<string>)
    requires Unfold(spec, node, n).Some? && Chain(spec, node, c) && c != []
    ensures |c| <= n && Resolves(spec, c[|c| - 1])
    ensures Unfold(spec, Target(spec, c[|c| - 1]).value, n - |c|).Some?
    decreases |c|
  {
    UnfoldSurface(spec, node, n, c[0]);
    if |c| > 1 {
      UnfoldAlongChain(spec, Target(spec, c[0]).value, n - 1, c[1..]);
    }
  }

  /** A reference that reaches itself cannot be unfolded at any depth. */
  lemma {:induction false} LoopNeverUnfolds(spec: Json, r: string, loop: seq<string>, n: nat)
    requires Resolves(spec, r) && loop != [] && loop[|loop| - 1] == r
    requires Chain(spec, Target(spec, r).value, loop)
    ensures Unfold(spec, Target(spec, r).value, n).None?
    decreases n
  {
    if Unfold(spec, Target(spec, r).value, n).Some? {
      UnfoldAlongChain(spec, Target(spec, r).value, n, loop);
      LoopNeverUnfolds(spec, r, loop, n - |loop|);
    }
  }

  lemma {:induction false} ChainSuffix(spec: Json, node: Json, c: seq<string>, i: nat)
    requires Chain(spec, node, c) && i + 1 < |c|
    ensures Resolves(spec, c[i]) && Chain(spec, Target(spec, c[i]).value, c[i + 1..])
    decreases i
  {
    if i == 0 {
    } else {
      ChainSuffix(spec, Target(spec, c[0]).value, c[1..], i - 1);
      assert c[1..][i..] == c[i + 1..];
    }
  }

  lemma {:induction false} ChainPrefix(spec: Json, node: Json, c: seq<string>, k: nat)
    requires Chain(spec, node, c) && k <= |c|
    ensures Chain(spec, node, c[..k])
    decreases k
  {
    if k > 1 {
      ChainPrefix(spec, Target(spec, c[0]).value, c[1..], k - 1);
      assert c[..k][1..] == c[1..][..k - 1];
    }
  }

  /** A path whose last reference already occurs on it splits into a way there and a loop. */
  lemma LoopOnPath(spec: Json, node: Json, c: seq<string>) returns (i: nat)
    requires c != [] && Chain(spec, node, c) && c[|c| - 1] in c[..|c| - 1]
    ensures i + 1 < |c| && c[i] == c[|c| - 1]
    ensures Resolves(spec, c[i]) && Chain(spec, Target(spec, c[i]).value, c[i + 1..]) && Chain(spec, node, c[..i + 1])
    ensures c[i + 1..] != [] && c[i + 1..][|c[i + 1..]| - 1] == c[i]
  {
    hide Chain, Resolves;
    var k := |c| - 1;
    i :| 0 <= i < k && c[..k][i] == c[k];
    ChainSuffix(spec, node, c, i);
    ChainPrefix(spec, node, c, i + 1);
    assert c[i + 1..][|c[i + 1..]| - 1] == c[k];
  }

  /** No false alarms: a reported cycle is a reference that really reaches itself, so sharing alone is never one. */
  lemma CycleErrorMeansCycle(spec: Json, node: Json, r: string)
    requires Expand(spec, node, {}) == Err(Cyclic(r))
    ensures Resolves(spec, r)
    ensures exists loop :: loop != [] && loop[|loop| - 1] == r && Chain(spec, Target(spec, r).value, loop)
  {
    hide Expand, Chain, Resolves;
    var c := ErrorIsExplained(spec, node, {});
    var i := LoopOnPath(spec, node, c);
  }

  /** The path behind an error whose last reference resolves comes back to it. */
  lemma ResolvedEndRepeats(spec: Json, c: seq<string>, e: RefError)
    requires Explains(spec, c, {}, e) && Resolves(spec, c[|c| - 1])
    ensures c[|c| - 1] in c[..|c| - 1]
  {
    ErrorsOfTarget(spec, c[|c| - 1]);
  }

  lemma UnfoldMeansNoError(spec: Json, node: Json, n: nat)
    requires Unfold(spec, node, n).Some?
    ensures Expand(spec, node, {}).Ok?
  {
    hide Expand, Unfold, Chain, Resolves, Target;
    if Expand(spec, node, {}).Err? {
      var c := ErrorIsExplained(spec, node, {});
      UnfoldAlongChain(spec, node, n, c);
      ResolvedEndRepeats(spec, c, Expand(spec, node, {}).error);
      hide Explains;
      var i := LoopOnPath(spec, node, c);
      UnfoldAlongChain(spec, node, n, c[..i + 1]);
      LoopNeverUnfolds(spec, c[i], c[i + 1..], n - (i + 1));
    }
  }

  lemma {:induction false} UnfoldGrows(spec: Json, node: Json, n: nat, more: nat)
    requires Unfold(spec, node, n).Some? && n <= more
    ensures Unfold(spec, node, more) == Unfold(spec, node, n)
    decreases n, 1, node
  {
    match node
    case Arr(items) => UnfoldItemsGrow(spec, items, n, more);
    case Obj(ms) =>
      if RefOf(ms).Some? {
        UnfoldGrows(spec, Target(spec, RefOf(ms).value).value, n - 1, more - 1);
      } else {
        UnfoldMembersGrow(spec, ms, n, more);
      }
    case _ =>
  }

  lemma {:induction false} UnfoldItemsGrow(spec: Json, items: seq<Json>, n: nat, more: nat)
    requires UnfoldItems(spec, items, n).Some? && n <= more
    ensures UnfoldItems(spec, items, more) == UnfoldItems(spec, items, n)
    decreases n, 1, items
  {
    if items == [] {
    } else {
      UnfoldGrows(spec, items[0], n, more);
      UnfoldItemsGrow(spec, items[1..], n, more);
    }
  }

  lemma {:induction false} UnfoldMembersGrow(spec: Json, ms: seq<Member>, n: nat, more: nat)
    requires UnfoldMembers(spec, ms, n).Some? && n <= more
    ensures UnfoldMembers(spec, ms, more) == UnfoldMembers(spec, ms, n)
    decreases n, 1, ms
  {
    if ms == [] {
    } else {
      UnfoldGrows(spec, ms[0].value, n, more);
      UnfoldMembersGrow(spec, ms[1..], n, more);
    }
  }

  /**
   * Meaning. Expansion from an empty visited set succeeds exactly when plain substitution ends,
   * and then with the same tree: the visited set changes neither the answer nor its domain.
   */
  lemma ExpandIsUnfolding(spec: Json, node: Json, v: Json)
    ensures Expand(spec, node, {}) == Ok(v) <==> exists n: nat :: Unfold(spec, node, n) == Some(v)
  {
    if Expand(spec, node, {}) == Ok(v) {
      var n := Rank(spec, AllRefs(node), {});
      ExpandUnfolds(spec, node, {}, n);
      assert Unfold(spec, node, n) == Some(v);
    }
    if n: nat :| Unfold(spec, node, n) == Some(v) {
      UnfoldMeansNoError(spec, node, n);
      var m := Rank(spec, AllRefs(node), {});
      ExpandUnfolds(spec, node, {}, m);
      if m <= n { UnfoldGrows(spec, node, m, n); } else { UnfoldGrows(spec, node, n, m); }
    }
  }

  // ------------------------------------------------ shape of the result

  lemma {:induction false} ExpandKeepsKind(spec: Json, node: Json, visited: set<string>)
    requires Expand(spec, node, visited).Ok?
    ensures Expand(spec, node, visited).value.Str? <==> node.Str?
    ensures node.Obj? ==> Expand(spec, node, visited).value.Obj?
    decreases Rank(spec, AllRefs(node), visited)
  {
    if node.Obj? && RefOf(node.members).Some? {
      var r := RefOf(node.members).value;
      Jump(spec, node.members, visited);
      ExpandKeepsKind(spec, Target(spec, r).value, visited + {r});
    }
  }

  lemma {:induction false} MembersKeepKind(spec: Json, ms: seq<Member>, visited: set<string>, key: string)
    requires ExpandMembers(spec, ms, visited).Ok?
    ensures var out := ExpandMembers(spec, ms, visited).value;
      && (HasKey(out, key) <==> HasKey(ms, key))
      && (HasKey(ms, key) ==> (Get(out, key).Str? <==> Get(ms, key).Str?))
    decreases |ms|
  {
    if ms == [] {
    } else {
      ExpandKeepsKind(spec, ms[0].value, visited);
      MembersKeepKind(spec, ms[1..], visited, key);
      var out := ExpandMembers(spec, ms, visited).value;
      assert out[1..] == ExpandMembers(spec, ms[1..], visited).value;
    }
  }

  /** A successful result contains no object with a string-valued `$ref`. */
  lemma {:induction false} ResultIsRefFree(spec: Json, node: Json, visited: set<string>)
    requires Expand(spec, node, visited).Ok?
    ensures AllRefs(Expand(spec, node, visited).value) == {}
    decreases Rank(spec, AllRefs(node), visited), 1, node
  {
    hide Rank;
    match node
    case Arr(items) => ItemsAreRefFree(spec, items, visited);
    case Obj(ms) =>
      if RefOf(ms).Some? {
        var r := RefOf(ms).value;
        Jump(spec, node.members, visited);
        ResultIsRefFree(spec, Target(spec, r).value, visited + {r});
      } else {
        RankGrows(spec, MemberRefs(ms), AllRefs(node), visited);
        MembersAreRefFree(spec, ms, visited);
        MembersKeepKind(spec, ms, visited, "$ref");
      }
    case _ =>
  }

  lemma {:induction false} ItemsAreRefFree(spec: Json, items: seq<Json>, visited: set<string>)
    requires ExpandItems(spec, items, visited).Ok?
    ensures ItemRefs(ExpandItems(spec, items, visited).value) == {}
    decreases Rank(spec, ItemRefs(items), visited), 1, items
  {
    if items == [] {
    } else {
      RankGrows(spec, AllRefs(items[0]), ItemRefs(items), visited);
      RankGrows(spec, ItemRefs(items[1..]), ItemRefs(items), visited);
      ResultIsRefFree(spec, items[0], visited);
      ItemsAreRefFree(spec, items[1..], visited);
      assert ExpandItems(spec, items, visited).value[1..] == ExpandItems(spec, items[1..], visited).value;
    }
  }

  lemma {:induction false} MembersAreRefFree(spec: Json, ms: seq<Member>, visited: set<string>)
    requires ExpandMembers(spec, ms, visited).Ok?
    ensures MemberRefs(ExpandMembers(spec, ms, visited).value) == {}
    decreases Rank(spec, MemberRefs(ms), visited), 1, ms
  {
    if ms == [] {
    } else {
      RankGrows(spec, AllRefs(ms[0].value), MemberRefs(ms), visited);
      RankGrows(spec, MemberRefs(ms[1..]), MemberRefs(ms), visited);
      ResultIsRefFree(spec, ms[0].value, visited);
      MembersAreRefFree(spec, ms[1..], visited);
      assert ExpandMembers(spec, ms, visited).value[1..] == ExpandMembers(spec, ms[1..], visited).value;
    }
  }

  lemma {:induction false} RefFreeIsFixed(spec: Json, node: Json, visited: set<string>)
    requires AllRefs(node) == {}
    ensures Expand(spec, node, visited) == Ok(node)
    decreases node
  {
    match node
    case Arr(items) => RefFreeItemsAreFixed(spec, items, visited);
    case Obj(ms) => RefFreeMembersAreFixed(spec, ms, visited);
    case _ =>
  }

  lemma {:induction false} RefFreeItemsAreFixed(spec: Json, items: seq<Json>, visited: set<string>)
    requires ItemRefs(items) == {}
    ensures ExpandItems(spec, items, visited) == Ok(items)
    decreases items
  {
    if items == [] {
    } else {
      RefFreeIsFixed(spec, items[0], visited);
      RefFreeItemsAreFixed(spec, items[1..], visited);
      assert [items[0]] + items[1..] == items;
    }
  }

  lemma {:induction false} RefFreeMembersAreFixed(spec: Json, ms: seq<Member>, visited: set<string>)
    requires MemberRefs(ms) == {}
    ensures ExpandMembers(spec, ms, visited) == Ok(ms)
    decreases ms
  {
    if ms == [] {
    } else {
      RefFreeIsFixed(spec, ms[0].value, visited);
      RefFreeMembersAreFixed(spec, ms[1..], visited);
      assert [Member(ms[0].key, ms[0].value)] + ms[1..] == ms;
    }
  }

  /** A result is a fixed point: resolving it again, against any document, changes nothing. */
  lemma ExpandIsIdempotent(spec: Json, node: Json, visited: set<string>, other: Json, visited': set<string>)
    requires Expand(spec, node, visited).Ok?
    ensures Expand(other, Expand(spec, node, visited).value, visited') == Expand(spec, node, visited)
  {
    ResultIsRefFree(spec, node, visited);
    RefFreeIsFixed(other, Expand(spec, node, visited).value, visited');
  }

  /** Success under a larger visited set is the same success under any smaller one. */
  lemma {:induction false} VisitedOnlyRestricts(spec: Json, node: Json, small: set<string>, big: set<string>)
    requires small <= big && Expand(spec, node, big).Ok?
    ensures Expand(spec, node, small) == Expand(spec, node, big)
  {
    forall c | Chain(spec, node, c) ensures Sound(spec, c, small) {
      SuccessMakesChainsSound(spec, node, big, c);
    }
    ExpandSucceedsExactly(spec, node, small);
    var n := Max(Rank(spec, AllRefs(node), small), Rank(spec, AllRefs(node), big));
    ExpandUnfolds(spec, node, small, n);
    ExpandUnfolds(spec, node, big, n);
  }
}
