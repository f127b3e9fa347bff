/**
  The searches of src/http_client.c over the token array: next_token_index and find_object_value, and why they agree
  with looking things up in the tree.
*/
module TokenSearch {
  import opened Base
  import opened CText
  import opened JsonTree

  /** The token at `j`, if any, starts at or after `limit`. */
  predicate Beyond(ts: seq<Token>, j: nat, limit: int)
  {
    j <= |ts| && (j < |ts| ==> ts[j].start >= limit)
  }

  /** The tokens of a node stand at `i`, its text at `pos`, and nothing after it starts before its end. */
  ghost predicate Holds(js: string, ts: seq<Token>, n: Node, pos: nat, i: nat, parent: int)
    decreases n
  {
    && i < |ts| && ts[i] == Head(n, pos, parent) && At(js, Text(n), pos) && Beyond(ts, i + Count(n), pos + |Text(n)|)
    && (n.Box? ==> HoldsF(js, ts, n.items, pos + 1, i + 1, i, pos + |Text(n)|))
  }

  /** The same for the items of a container that ends at `limit`. */
  ghost predicate HoldsF(js: string, ts: seq<Token>, f: Forest, pos: nat, i: nat, parent: int, limit: int)
    decreases f
  {
    match f
    case Done(pad) => Beyond(ts, i, limit) && pos + |pad| < limit
    case Item(pad, node, rest) =>
      && Holds(js, ts, node, pos + |pad|, i, parent)
      && HoldsF(js, ts, rest, pos + |pad| + |Text(node)|, i + Count(node), parent, limit)
  }

  // ---------------------------------------------------------------- next_token_index

  /** The first token after `i` that does not start inside it. */
  ghost predicate IsNext(ts: seq<Token>, i: nat, j: nat)
  {
    i < |ts| && i < j && Beyond(ts, j, ts[i].end) && forall k :: i < k < j ==> ts[k].start < ts[i].end
  }

  /** next_token_index */
  method NextTokenIndex(ts: seq<Token>, index: nat) returns (i: nat)
    requires index < |ts|
    ensures IsNext(ts, index, i)
  {
    var end := ts[index].end;
    i := index + 1;
    while i < |ts| && ts[i].start < end
      invariant index < i <= |ts| && forall k :: index < k < i ==> ts[k].start < end
    {
      i := i + 1;
    }
  }

  lemma {:induction false} InnerStarts(js: string, ts: seq<Token>, n: Node, pos: nat, i: nat, parent: int, k: nat)
    requires Holds(js, ts, n, pos, i, parent) && Good(n) && i <= k < i + Count(n)
    ensures k < |ts| && ts[k].start < pos + |Text(n)|
    decreases n
  {
    if i < k {
      InnerStartsF(js, ts, n.items, pos + 1, i + 1, i, pos + |Text(n)|, k);
    }
  }

  lemma {:induction false} InnerStartsF(js: string, ts: seq<Token>, f: Forest, pos: nat, i: nat, parent: int,
                                        limit: int, k: nat)
    requires HoldsF(js, ts, f, pos, i, parent, limit) && GoodF(f) && i <= k < i + CountF(f)
    ensures k < |ts| && ts[k].start < pos + |TextF(f)|
    decreases f
  {
    if k < i + Count(f.node) {
      InnerStarts(js, ts, f.node, pos + |f.pad|, i, parent, k);
    } else {
      InnerStartsF(js, ts, f.rest, pos + |f.pad| + |Text(f.node)|, i + Count(f.node), parent, limit, k);
    }
  }

  /** What next_token_index finds is the next sibling: exactly the tokens of the node are skipped. */
  lemma NextIsSibling(js: string, ts: seq<Token>, n: Node, pos: nat, i: nat, parent: int, j: nat)
    requires Holds(js, ts, n, pos, i, parent) && Good(n) && IsNext(ts, i, j)
    ensures j == i + Count(n)
  {
    if j < i + Count(n) {
      InnerStarts(js, ts, n, pos, i, parent, j);
    }
  }

  // ---------------------------------------------------------------- objects

  /** Keys and values alternate, and the keys are strings. */
  predicate IsMembers(f: Forest)
  {
    match f
    case Done(_) => true
    case Item(_, key, rest) => key.Str? && rest.Item? && IsMembers(rest.rest)
  }

  datatype Member = Member(key: string, value: Node)

  /** The members of an object, in order. */
  function Members(f: Forest): seq<Member>
    requires IsMembers(f)
  {
    match f
    case Done(_) => []
    case Item(_, key, rest) => [Member(key.raw, rest.node)] + Members(rest.rest)
  }

  /** Lookup in the tree: the first direct member with this raw key. */
  function Lookup(ms: seq<Member>, key: string): Option<Node>
  {
    if ms == [] then None
    else if ms[0].key == key then Some(ms[0].value)
    else Lookup(ms[1..], key)
  }

  /** Member `i` is the first with this key. */
  ghost predicate IsFirst(ms: seq<Member>, key: string, i: nat)
  {
    i < |ms| && ms[i].key == key && forall j :: 0 <= j < i ==> ms[j].key != key
  }

  lemma {:induction false} LookupIsFirst(ms: seq<Member>, key: string, i: nat)
    requires IsFirst(ms, key, i)
    ensures Lookup(ms, key) == Some(ms[i].value)
    decreases i
  {
    if i > 0 {
      LookupIsFirst(ms[1..], key, i - 1);
    }
  }

  lemma {:induction false} LookupNone(ms: seq<Member>, key: string)
    ensures Lookup(ms, key).None? <==> forall i :: 0 <= i < |ms| ==> ms[i].key != key
  {
    if ms != [] {
      LookupNone(ms[1..], key);
      assert forall i :: 0 < i < |ms| ==> ms[i] == ms[1..][i - 1];
    }
  }

  lemma LookupCons(m: Member, ms: seq<Member>, key: string)
    ensures Lookup([m] + ms, key) == if m.key == key then Some(m.value) else Lookup(ms, key)
  {
    assert ([m] + ms)[1..] == ms;
  }

  // ---------------------------------------------------------------- any container

  /**
    What find_object_value takes for keys in any container: every string child, except those it skips as the value of
    the string before.
  */
  function Keys(f: Forest): seq<string>
  {
    if f.Done? then []
    else if !f.node.Str? then Keys(f.rest)
    else [f.node.raw] + if f.rest.Item? then Keys(f.rest.rest) else []
  }

  /** The last child is a key without a value. */
  predicate Lone(f: Forest)
  {
    f.Item? &&
    if !f.node.Str? then Lone(f.rest)
    else f.rest.Done? || Lone(f.rest.rest)
  }

  /** What a search sees: a value (and the nodes after it), nothing, or a place where no token was parsed. */
  datatype Sight = Sees(node: Node, after: Forest) | SeesNothing | SeesBeyond

  /** The nodes of `f` and then those that follow. */
  function Following(f: Forest, follow: Forest): Forest
  {
    if f.Item? then Item(f.pad, f.node, Following(f.rest, follow)) else follow
  }

  /** The search in the tree; `follow` holds the nodes after the container. */
  function Look(f: Forest, key: string, follow: Forest): Sight
  {
    if f.Done? then SeesNothing
    else if !f.node.Str? then Look(f.rest, key, follow)
    else if f.node.raw == key then
      if f.rest.Item? then Sees(f.rest.node, Following(f.rest.rest, follow))
      else if follow.Item? then Sees(follow.node, follow.rest)
      else SeesNothing
    else if f.rest.Item? then Look(f.rest.rest, key, follow)
    else if follow.Item? then SeesNothing
    else SeesBeyond
  }

  /** The direct children. */
  function Kids(f: Forest): seq<Node> { if f.Done? then [] else [f.node] + Kids(f.rest) }

  /** Only a string among the direct children can be a key, never a primitive, a container or anything nested. */
  lemma {:induction false} KeysAreStrings(f: Forest, key: string)
    ensures key in Keys(f) ==> Str(key) in Kids(f)
    decreases f
  {
    if f.Item? {
      KeysAreStrings(f.rest, key);
      if f.rest.Item? {
        KeysAreStrings(f.rest.rest, key);
      }
    }
  }

  /** And a string child is one, unless it stands right after another. */
  lemma {:induction false} StringIsKey(f: Forest, key: string, i: nat)
    requires i < |Kids(f)| && Kids(f)[i] == Str(key) && (i > 0 ==> !Kids(f)[i - 1].Str?)
    ensures key in Keys(f)
    decreases f
  {
    if i > 0 {
      if f.node.Str? && i > 1 {
        StringIsKey(f.rest.rest, key, i - 2);
      } else {
        StringIsKey(f.rest, key, i - 1);
      }
    }
  }

  /** It strays beyond the tokens if and only if the last child is a lone key, no key matches, and nothing follows. */
  lemma {:induction false} StraysExactly(f: Forest, key: string, follow: Forest)
    ensures Look(f, key, follow).SeesBeyond? <==> Lone(f) && key !in Keys(f) && follow.Done?
    ensures key !in Keys(f) ==> !Look(f, key, follow).Sees?
    decreases f
  {
    if f.Item? {
      if !f.node.Str? {
        StraysExactly(f.rest, key, follow);
      } else if f.rest.Item? {
        StraysExactly(f.rest.rest, key, follow);
      }
    }
  }

  /** In an object whose keys and values alternate the search is lookup, and never strays. */
  lemma {:induction false} LookIsLookup(f: Forest, key: string, follow: Forest)
    requires IsMembers(f)
    ensures var v, r := Lookup(Members(f), key), Look(f, key, follow);
      if v.Some? then r.Sees? && r.node == v.value else r == SeesNothing
    decreases f
  {
    if f.Item? {
      LookupCons(Member(f.node.raw, f.rest.node), Members(f.rest.rest), key);
      if f.node.raw != key {
        LookIsLookup(f.rest.rest, key, follow);
      }
    }
  }

  lemma {:induction false} LookupFindsFirst(ms: seq<Member>, key: string) returns (m: nat)
    requires Lookup(ms, key).Some?
    ensures IsFirst(ms, key, m) && Lookup(ms, key) == Some(ms[m].value)
  {
    if ms[0].key == key {
      m := 0;
    } else {
      m := LookupFindsFirst(ms[1..], key);
      m := m + 1;
      assert forall j :: 0 < j < |ms| ==> ms[j] == ms[1..][j - 1];
    }
    LookupIsFirst(ms, key, m);
  }

  // ---------------------------------------------------------------- find_object_value

  /** token_equals */
  predicate TokenEquals(js: string, t: Token, value: string)
  {
    0 <= t.start <= t.end <= |js| && js[t.start..t.end] == value
  }

  lemma StringEquals(js: string, raw: string, pos: nat, parent: int, key: string)
    requires At(js, Text(Str(raw)), pos)
    ensures TokenEquals(js, Head(Str(raw), pos, parent), key) <==> raw == key
  {
    AtSplits(js, "\"" + raw, "\"", pos);
    AtSplits(js, "\"", raw, pos);
  }

  /** What find_object_value returns: an index, -1, or (Stray) it has read the token after the last one. */
  datatype Finding = Hit(index: nat) | Missing | Stray

  /**
    Where the search in the tree ends: at the token after the key found, nowhere, or at a token it reads to skip it.
  */
  datatype Probed = Value(index: nat) | Gone | Dangling(index: nat)

  /** The search in the tree, by token indexes. */
  function Probe(f: Forest, key: string, i: nat): Probed
  {
    if f.Done? then Gone
    else if !f.node.Str? then Probe(f.rest, key, i + Count(f.node))
    else if f.node.raw == key then Value(i + 1)
    else if f.rest.Item? then Probe(f.rest.rest, key, i + 1 + Count(f.rest.node))
    else Dangling(i + 1)
  }

  function Resolve(p: Probed, count: nat): Finding
  {
    match p
    case Value(j) => if j < count then Hit(j) else Missing
    case Gone => Missing
    case Dangling(j) => if j < count then Missing else Stray
  }

  /** No token ends before it starts. */
  ghost predicate Ordered(ts: seq<Token>) { forall k :: 0 <= k < |ts| ==> ts[k].start <= ts[k].end }

  /** Inside a node every token's parent is in the node. */
  lemma {:induction false} InnerParents(js: string, ts: seq<Token>, n: Node, pos: nat, i: nat, parent: int, k: nat)
    requires Holds(js, ts, n, pos, i, parent) && i < k < i + Count(n)
    ensures k < |ts| && ts[k].parent >= i
    decreases n
  {
    InnerParentsF(js, ts, n.items, pos + 1, i + 1, i, pos + |Text(n)|, k);
  }

  lemma {:induction false} InnerParentsF(js: string, ts: seq<Token>, f: Forest, pos: nat, i: nat, parent: nat,
                                         limit: int, k: nat)
    requires HoldsF(js, ts, f, pos, i, parent, limit) && i <= k < i + CountF(f) && parent < i
    ensures k < |ts| && ts[k].parent >= parent
    decreases f
  {
    if k == i {
    } else if k < i + Count(f.node) {
      InnerParents(js, ts, f.node, pos + |f.pad|, i, parent, k);
    } else {
      InnerParentsF(js, ts, f.rest, pos + |f.pad| + |Text(f.node)|, i + Count(f.node), parent, limit, k);
    }
  }

  lemma {:induction false} StartsBefore(js: string, ts: seq<Token>, f: Forest, pos: nat, i: nat, owner: nat, limit: int)
    requires HoldsF(js, ts, f, pos, i, owner, limit) && GoodF(f)
    ensures pos + |TextF(f)| < limit
    decreases f
  {
    if f.Item? {
      StartsBefore(js, ts, f.rest, pos + |f.pad| + |Text(f.node)|, i + Count(f.node), owner, limit);
    }
  }

  lemma ItemHolds(js: string, ts: seq<Token>, f: Forest, pos: nat, i: nat, owner: int, limit: int)
    requires HoldsF(js, ts, f, pos, i, owner, limit) && GoodF(f) && f.Item?
    ensures Good(f.node) && Holds(js, ts, f.node, pos + |f.pad|, i, owner)
    ensures GoodF(f.rest) && HoldsF(js, ts, f.rest, AfterItem(f, pos), i + Count(f.node), owner, limit)
  {
  }

  function AfterItem(f: Forest, pos: nat): nat
    requires f.Item?
  {
    pos + |f.pad| + |Text(f.node)|
  }

  /** A loop over the items of a container goes on exactly while there are some left. */
  lemma GoesOn(js: string, ts: seq<Token>, f: Forest, pos: nat, i: nat, owner: nat, limit: int)
    requires HoldsF(js, ts, f, pos, i, owner, limit) && GoodF(f)
    ensures i <= |ts| && ((i < |ts| && ts[i].start < limit) <==> f.Item?)
  {
    if f.Item? {
      InnerStarts(js, ts, f.node, pos + |f.pad|, i, owner, i);
      StartsBefore(js, ts, f, pos, i, owner, limit);
    }
  }

  /** A loop stands at `i` in a container: tokens up to `next` are inside a child, and the children `f` come then. */
  ghost predicate Passing(js: string, ts: seq<Token>, f: Forest, pos: nat, i: nat, next: nat, owner: nat, limit: int)
  {
    && owner < i <= next <= |ts| && ts[owner].end == limit && GoodF(f) && HoldsF(js, ts, f, pos, next, owner, limit)
    && forall k :: i <= k < next ==> ts[k].start < limit && ts[k].parent != owner
  }

  lemma PassingOn(js: string, ts: seq<Token>, f: Forest, pos: nat, i: nat, next: nat, owner: nat, limit: int)
    requires Passing(js, ts, f, pos, i, next, owner, limit)
    ensures i < |ts| && ts[i].start < limit <==> i < next || f.Item?
    ensures i < next ==> Passing(js, ts, f, pos, i + 1, next, owner, limit) && ts[i].parent != owner
  {
    if i == next {
      GoesOn(js, ts, f, pos, i, owner, limit);
    }
  }

  /** At a child: its token, and what stands inside and after it. */
  lemma AtItem(js: string, ts: seq<Token>, f: Forest, pos: nat, i: nat, owner: nat, limit: int)
    requires Passing(js, ts, f, pos, i, i, owner, limit) && f.Item?
    ensures var at, next := pos + |f.pad|, i + Count(f.node);
      && i < |ts| && Good(f.node) && Holds(js, ts, f.node, at, i, owner) && ts[i] == Head(f.node, at, owner)
      && Passing(js, ts, f.rest, AfterItem(f, pos), next, next, owner, limit)
      && Passing(js, ts, f.rest, AfterItem(f, pos), i + 1, next, owner, limit)
  {
    ItemHolds(js, ts, f, pos, i, owner, limit);
    var at, next := pos + |f.pad|, i + Count(f.node);
    StartsBefore(js, ts, f.rest, AfterItem(f, pos), next, owner, limit);
    GoesOn(js, ts, f.rest, AfterItem(f, pos), next, owner, limit);
    forall k | i < k < next
      ensures ts[k].start < limit && ts[k].parent != owner
    {
      InnerStarts(js, ts, f.node, at, i, owner, k);
      InnerParents(js, ts, f.node, at, i, owner, k);
    }
  }

  /** The token of a child: whether it is taken for a key, and whether for the one asked for. */
  lemma ChildToken(js: string, ts: seq<Token>, f: Forest, pos: nat, i: nat, owner: nat, limit: int, key: string)
    requires Passing(js, ts, f, pos, i, i, owner, limit) && f.Item?
    ensures i < |ts| && ts[i].parent == owner && (ts[i].kind == String <==> f.node.Str?)
    ensures f.node.Str? ==> (TokenEquals(js, ts[i], key) <==> f.node.raw == key)
  {
    AtItem(js, ts, f, pos, i, owner, limit);
    if f.node.Str? {
      StringEquals(js, f.node.raw, pos + |f.pad|, owner, key);
    }
  }

  /** A child that is no string is passed over, token by token. */
  lemma ChildPassed(js: string, ts: seq<Token>, f: Forest, pos: nat, i: nat, owner: nat, limit: int)
    requires Passing(js, ts, f, pos, i, i, owner, limit) && f.Item?
    ensures Passing(js, ts, f.rest, AfterItem(f, pos), i + 1, i + Count(f.node), owner, limit)
  {
    AtItem(js, ts, f, pos, i, owner, limit);
  }

  /** After a key that is not the one, its value is skipped as a whole. */
  lemma ValueSkipped(js: string, ts: seq<Token>, f: Forest, pos: nat, i: nat, owner: nat, limit: int, j: nat)
    requires Passing(js, ts, f, pos, i, i, owner, limit) && f.Item? && f.node.Str? && f.rest.Item?
             && IsNext(ts, i + 1, j)
    ensures j == i + 1 + Count(f.rest.node)
    ensures Passing(js, ts, f.rest.rest, AfterItem(f.rest, AfterItem(f, pos)), j, j, owner, limit)
  {
    AtItem(js, ts, f, pos, i, owner, limit);
    AtItem(js, ts, f.rest, AfterItem(f, pos), i + 1, owner, limit);
    NextIsSibling(js, ts, f.rest.node, AfterItem(f, pos) + |f.rest.pad|, i + 1, owner, j);
  }

  /** After a lone key the token that is skipped is outside the container, and the search ends. */
  lemma LoneSkipped(js: string, ts: seq<Token>, f: Forest, pos: nat, i: nat, owner: nat, limit: int, j: nat)
    requires Passing(js, ts, f, pos, i, i, owner, limit) && f.Item? && f.node.Str? && f.rest.Done? && Ordered(ts)
    requires IsNext(ts, i + 1, j)
    ensures Passing(js, ts, Done(""), pos, j, j, owner, limit)
  {
    AtItem(js, ts, f, pos, i, owner, limit);
    StartsBefore(js, ts, f, pos, i, owner, limit);
    assert ts[i + 1].start <= ts[i + 1].end;
  }

  lemma HasNext(js: string, ts: seq<Token>, f: Forest, pos: nat, i: nat, owner: nat, limit: int)
    requires Passing(js, ts, f, pos, i, i, owner, limit) && f.Item? && f.rest.Item? && f.node.Str?
    ensures i + 1 < |ts|
  {
    AtItem(js, ts, f, pos, i, owner, limit);
    AtItem(js, ts, f.rest, AfterItem(f, pos), i + 1, owner, limit);
  }

  /** The tokens of a node stand at `i`, somewhere in the text. */
  ghost predicate Stands(js: string, ts: seq<Token>, n: Node, i: nat)
  {
    Good(n) && exists pos: nat, parent: int :: Holds(js, ts, n, pos, i, parent)
  }

  /** The nodes that come at `j`, one after the other up to the end of the tokens. */
  ghost predicate Comes(js: string, ts: seq<Token>, j: nat, follow: Forest)
    decreases follow
  {
    match follow
    case Done(_) => j >= |ts|
    case Item(_, node, rest) => Stands(js, ts, node, j) && Comes(js, ts, j + Count(node), rest)
  }

  lemma {:induction false} RestComes(js: string, ts: seq<Token>, f: Forest, pos: nat, i: nat, owner: int, limit: int,
                                     follow: Forest)
    requires HoldsF(js, ts, f, pos, i, owner, limit) && GoodF(f) && Comes(js, ts, i + CountF(f), follow)
    ensures Comes(js, ts, i, Following(f, follow))
    decreases f
  {
    if f.Item? {
      ItemHolds(js, ts, f, pos, i, owner, limit);
      RestComes(js, ts, f.rest, AfterItem(f, pos), i + Count(f.node), owner, limit, follow);
    }
  }

  /** The index found and the node seen are the same value. */
  ghost predicate SameSight(js: string, ts: seq<Token>, r: Finding, v: Sight)
  {
    match v
    case Sees(n, after) => r.Hit? && Stands(js, ts, n, r.index) && Comes(js, ts, r.index + Count(n), after)
    case SeesNothing => r == Missing
    case SeesBeyond => r == Stray
  }

  ghost predicate Agrees(js: string, ts: seq<Token>, f: Forest, i: nat, key: string, follow: Forest)
  {
    SameSight(js, ts, Resolve(Probe(f, key, i), |ts|), Look(f, key, follow))
  }

  /** The nodes of a container before what follows it. */
  ghost predicate Leads(js: string, ts: seq<Token>, f: Forest, pos: nat, i: nat, owner: int, limit: int, follow: Forest)
  {
    HoldsF(js, ts, f, pos, i, owner, limit) && GoodF(f) && Comes(js, ts, i + CountF(f), follow)
  }

  lemma RestLeads(js: string, ts: seq<Token>, f: Forest, pos: nat, i: nat, owner: int, limit: int, follow: Forest)
    requires f.Item? && Leads(js, ts, f, pos, i, owner, limit, follow)
    ensures Leads(js, ts, f.rest, AfterItem(f, pos), i + Count(f.node), owner, limit, follow)
  {
    ItemHolds(js, ts, f, pos, i, owner, limit);
  }

  /** What find_object_value finds is what the search in the tree sees. */
  lemma {:induction false} ProbeIsLook(js: string, ts: seq<Token>, f: Forest, pos: nat, i: nat, owner: int, limit: int,
                                       key: string, follow: Forest)
    requires Leads(js, ts, f, pos, i, owner, limit, follow)
    ensures Agrees(js, ts, f, i, key, follow)
    decreases f
  {
    if f.Item? {
      var at, j := AfterItem(f, pos), i + Count(f.node);
      RestLeads(js, ts, f, pos, i, owner, limit, follow);
      if !f.node.Str? {
        ProbeIsLook(js, ts, f.rest, at, j, owner, limit, key, follow);
        OtherSight(js, ts, f, i, key, follow);
      } else if f.rest.Done? {
        LoneSight(js, ts, f, i, key, follow);
      } else if f.node.raw == key {
        ValueSight(js, ts, f, at, i, owner, limit, follow);
      } else {
        RestLeads(js, ts, f.rest, at, j, owner, limit, follow);
        ProbeIsLook(js, ts, f.rest.rest, AfterItem(f.rest, at), j + Count(f.rest.node), owner, limit, key, follow);
        SkipSight(js, ts, f, i, key, follow);
      }
    }
  }

  /** A child that is no string. */
  lemma OtherSight(js: string, ts: seq<Token>, f: Forest, i: nat, key: string, follow: Forest)
    requires f.Item? && !f.node.Str? && Agrees(js, ts, f.rest, i + Count(f.node), key, follow)
    ensures Agrees(js, ts, f, i, key, follow)
  {
  }

  /** Another key, and its value. */
  lemma SkipSight(js: string, ts: seq<Token>, f: Forest, i: nat, key: string, follow: Forest)
    requires f.Item? && f.node.Str? && f.node.raw != key && f.rest.Item?
    requires Agrees(js, ts, f.rest.rest, i + 1 + Count(f.rest.node), key, follow)
    ensures Agrees(js, ts, f, i, key, follow)
  {
  }

  /** A key without a value: whatever comes after the container is taken for the value, or skipped as one. */
  lemma LoneSight(js: string, ts: seq<Token>, f: Forest, i: nat, key: string, follow: Forest)
    requires f.Item? && f.node.Str? && f.rest.Done? && Comes(js, ts, i + 1, follow)
    ensures Agrees(js, ts, f, i, key, follow)
  {
  }

  /** The key that is asked for, and its value. */
  lemma ValueSight(js: string, ts: seq<Token>, f: Forest, at: nat, i: nat, owner: int, limit: int, follow: Forest)
    requires f.Item? && f.node.Str? && f.rest.Item? && GoodF(f.rest) && HoldsF(js, ts, f.rest, at, i + 1, owner, limit)
    requires Comes(js, ts, i + 1 + CountF(f.rest), follow)
    ensures Agrees(js, ts, f, i, f.node.raw, follow)
  {
    ValueComes(js, ts, f.rest, at, i + 1, owner, limit, follow);
    ValueSeen(js, ts, f, i, f.rest.node, Following(f.rest.rest, follow), follow);
  }

  /** The first node of `g` stands at `j`, and the others come after it. */
  lemma ValueComes(js: string, ts: seq<Token>, g: Forest, at: nat, j: nat, owner: int, limit: int, follow: Forest)
    requires g.Item? && GoodF(g) && HoldsF(js, ts, g, at, j, owner, limit) && Comes(js, ts, j + CountF(g), follow)
    ensures j < |ts| && Stands(js, ts, g.node, j) && Comes(js, ts, j + Count(g.node), Following(g.rest, follow))
  {
    ItemHolds(js, ts, g, at, j, owner, limit);
    RestComes(js, ts, g.rest, AfterItem(g, at), j + Count(g.node), owner, limit, follow);
  }

  lemma ValueSeen(js: string, ts: seq<Token>, f: Forest, i: nat, n: Node, after: Forest, follow: Forest)
    requires f.Item? && f.node.Str? && f.rest.Item? && n == f.rest.node && after == Following(f.rest.rest, follow)
    requires i + 1 < |ts| && Stands(js, ts, n, i + 1) && Comes(js, ts, i + 1 + Count(n), after)
    ensures Agrees(js, ts, f, i, f.node.raw, follow)
  {
    assert Probe(f, f.node.raw, i) == Value(i + 1);
    assert Look(f, f.node.raw, follow) == Sees(n, after);
  }

  /** In an object whose keys and values alternate: lookup. */
  lemma {:induction false} ProbeIsLookup(js: string, ts: seq<Token>, f: Forest, pos: nat, i: nat, owner: nat,
                                         limit: int, key: string)
    requires HoldsF(js, ts, f, pos, i, owner, limit) && GoodF(f) && IsMembers(f)
    ensures var r, v := Resolve(Probe(f, key, i), |ts|), Lookup(Members(f), key);
      if v.Some? then r.Hit? && Stands(js, ts, v.value, r.index) else r == Missing
    decreases f
  {
    if f.Item? {
      var at, j := AfterItem(f, pos), i + Count(f.node);
      ItemHolds(js, ts, f, pos, i, owner, limit);
      ItemHolds(js, ts, f.rest, at, j, owner, limit);
      LookupCons(Member(f.node.raw, f.rest.node), Members(f.rest.rest), key);
      if f.node.raw != key {
        ProbeIsLookup(js, ts, f.rest.rest, AfterItem(f.rest, at), j + Count(f.rest.node), owner, limit, key);
      }
    }
  }

  /** The value of the first direct member with the key, and nothing exactly when there is none. */
  ghost predicate FindsFirst(js: string, ts: seq<Token>, r: Finding, ms: seq<Member>, key: string)
  {
    match r
    case Missing => forall m :: 0 <= m < |ms| ==> ms[m].key != key
    case Hit(i) => exists m: nat :: IsFirst(ms, key, m) && Stands(js, ts, ms[m].value, i)
    case Stray => false
  }

  lemma FindsFirstMember(js: string, ts: seq<Token>, f: Forest, pos: nat, i: nat, owner: nat, limit: int, key: string)
    requires HoldsF(js, ts, f, pos, i, owner, limit) && GoodF(f) && IsMembers(f)
    ensures FindsFirst(js, ts, Resolve(Probe(f, key, i), |ts|), Members(f), key)
  {
    ProbeIsLookup(js, ts, f, pos, i, owner, limit, key);
    LookupNone(Members(f), key);
    if Lookup(Members(f), key).Some? {
      var m := LookupFindsFirst(Members(f), key);
    }
  }

  /**
    find_object_value on the token of any container.  It follows the search in the tree, and reads the token after the
    last one exactly when that search ends at a lone key with nothing after it.
  */
  method FindObjectValue(js: string, ts: seq<Token>, owner: nat, key: string, ghost items: Forest, ghost pos: nat)
    returns (r: Finding)
    requires owner < |ts| && Passing(js, ts, items, pos, owner + 1, owner + 1, owner, ts[owner].end) && Ordered(ts)
    ensures r == Resolve(Probe(items, key, owner + 1), |ts|)
    ensures IsMembers(items) ==> FindsFirst(js, ts, r, Members(items), key)
  {
    if IsMembers(items) { FindsFirstMember(js, ts, items, pos, owner + 1, owner, ts[owner].end, key); }
    r := SearchTokens(js, ts, owner, key, items, pos);
  }

  /** Its loop. */
  method SearchTokens(js: string, ts: seq<Token>, owner: nat, key: string, ghost items: Forest, ghost pos: nat)
    returns (r: Finding)
    requires owner < |ts| && Passing(js, ts, items, pos, owner + 1, owner + 1, owner, ts[owner].end) && Ordered(ts)
    ensures r == Resolve(Probe(items, key, owner + 1), |ts|)
  {
    var i: nat := owner + 1;
    var end := ts[owner].end;
    ghost var f, p: nat, next: nat := items, pos, i;
    ghost var goal := Resolve(Probe(items, key, i), |ts|);
    PassingOn(js, ts, f, p, i, next, owner, end);
    while i < |ts| && ts[i].start < end
      invariant Passing(js, ts, f, p, i, next, owner, end)
      invariant Resolve(Probe(f, key, next), |ts|) == goal
      invariant i < |ts| && ts[i].start < end <==> i < next || f.Item?
      decreases |ts| - i
    {
      if i == next {
        ChildToken(js, ts, f, p, i, owner, end, key);
        if f.rest.Item? && f.node.Str? { HasNext(js, ts, f, p, i, owner, end); }
      }
      if ts[i].parent == owner && ts[i].kind == String && TokenEquals(js, ts[i], key) {
        if i + 1 < |ts| { return Hit(i + 1); }
        return Missing;
      }
      if ts[i].parent == owner && ts[i].kind == String {
        if i + 1 >= |ts| { return Stray; }
        var j := NextTokenIndex(ts, i + 1);
        if f.rest.Item? {
          ValueSkipped(js, ts, f, p, i, owner, end, j);
          f, p := f.rest.rest, AfterItem(f.rest, AfterItem(f, p));
        } else {
          LoneSkipped(js, ts, f, p, i, owner, end, j);
          f := Done("");
        }
        i, next := j, j;
      } else {
        if i == next {
          ChildPassed(js, ts, f, p, i, owner, end);
          f, p, next := f.rest, AfterItem(f, p), i + Count(f.node);
        }
        i := i + 1;
      }
      PassingOn(js, ts, f, p, i, next, owner, end);
    }
    r := Missing;
  }

  // ---------------------------------------------------------------- the flattening holds everywhere

  /** Some tokens stand at `i`. */
  predicate Sliced(ts: seq<Token>, i: nat, part: seq<Token>)
  {
    i + |part| <= |ts| && ts[i..i + |part|] == part
  }

  lemma SliceSplits(ts: seq<Token>, i: nat, a: seq<Token>, b: seq<Token>)
    requires Sliced(ts, i, a + b)
    ensures Sliced(ts, i, a) && Sliced(ts, i + |a|, b)
  {
    var all := ts[i..i + |a| + |b|];
    assert all[..|a|] == a && all[|a|..] == b;
    assert ts[i..i + |a|] == all[..|a|];
    assert ts[i + |a|..i + |a| + |b|] == all[|a|..];
  }

  /** Every token of the node is where the flattening puts it. */
  ghost predicate Laid(ts: seq<Token>, n: Node, pos: nat, i: nat, parent: int)
    decreases n
  {
    && i + Count(n) <= |ts| && ts[i] == Head(n, pos, parent)
    && (n.Box? ==> LaidF(ts, n.items, pos + 1, i + 1, i))
  }

  ghost predicate LaidF(ts: seq<Token>, f: Forest, pos: nat, i: nat, parent: int)
    decreases f
  {
    f.Item? ==>
      && Laid(ts, f.node, pos + |f.pad|, i, parent)
      && LaidF(ts, f.rest, pos + |f.pad| + |Text(f.node)|, i + Count(f.node), parent)
  }

  lemma {:induction false} TokensLaid(ts: seq<Token>, n: Node, pos: nat, i: nat, parent: int)
    requires Sliced(ts, i, Tokens(n, pos, i, parent))
    ensures Laid(ts, n, pos, i, parent)
    decreases n
  {
    assert ts[i] == ts[i..i + Count(n)][0];
    if n.Box? {
      SliceSplits(ts, i, [Head(n, pos, parent)], TokensF(n.items, pos + 1, i + 1, i));
      TokensLaidF(ts, n.items, pos + 1, i + 1, i);
    }
  }

  lemma {:induction false} TokensLaidF(ts: seq<Token>, f: Forest, pos: nat, i: nat, parent: int)
    requires Sliced(ts, i, TokensF(f, pos, i, parent))
    ensures LaidF(ts, f, pos, i, parent)
    decreases f
  {
    if f.Item? {
      ItemSlices(ts, f, pos, i, parent);
      TokensLaid(ts, f.node, pos + |f.pad|, i, parent);
      TokensLaidF(ts, f.rest, AfterItem(f, pos), i + Count(f.node), parent);
    }
  }

  lemma ItemSlices(ts: seq<Token>, f: Forest, pos: nat, i: nat, parent: int)
    requires f.Item? && Sliced(ts, i, TokensF(f, pos, i, parent))
    ensures Sliced(ts, i, Tokens(f.node, pos + |f.pad|, i, parent))
    ensures Sliced(ts, i + Count(f.node), TokensF(f.rest, AfterItem(f, pos), i + Count(f.node), parent))
  {
    var at := pos + |f.pad|;
    SliceSplits(ts, i, Tokens(f.node, at, i, parent), TokensF(f.rest, at + |Text(f.node)|, i + Count(f.node), parent));
  }

  lemma {:induction false} FirstBeyond(ts: seq<Token>, f: Forest, pos: nat, i: nat, parent: int, limit: int)
    requires LaidF(ts, f, pos, i, parent) && Beyond(ts, i + CountF(f), limit) && pos <= limit
    ensures Beyond(ts, i, pos)
  {
  }

  /** A flattened document holds for its root and, through it, for every node inside it. */
  lemma {:induction false} LaidHolds(js: string, ts: seq<Token>, n: Node, pos: nat, i: nat, parent: int)
    requires Laid(ts, n, pos, i, parent) && At(js, Text(n), pos) && Beyond(ts, i + Count(n), pos + |Text(n)|)
    ensures Holds(js, ts, n, pos, i, parent)
    decreases n
  {
    if n.Box? {
      BoxText(js, n, pos);
      LaidHoldsF(js, ts, n.items, pos + 1, i + 1, i, pos + |Text(n)|);
    }
  }

  lemma {:induction false} LaidHoldsF(js: string, ts: seq<Token>, f: Forest, pos: nat, i: nat, parent: int, limit: int)
    requires LaidF(ts, f, pos, i, parent) && At(js, TextF(f), pos) && Beyond(ts, i + CountF(f), limit)
             && pos + |TextF(f)| < limit
    ensures HoldsF(js, ts, f, pos, i, parent, limit)
    decreases f
  {
    if f.Item? {
      var at := pos + |f.pad|;
      var next, j := at + |Text(f.node)|, i + Count(f.node);
      ItemTexts(js, f, pos);
      FirstBeyond(ts, f.rest, next, j, parent, limit);
      LaidHolds(js, ts, f.node, at, i, parent);
      LaidHoldsF(js, ts, f.rest, next, j, parent, limit);
    }
  }

  lemma {:induction false} TokensOrdered(n: Node, pos: nat, index: nat, parent: int)
    ensures Ordered(Tokens(n, pos, index, parent))
    decreases n
  {
    if n.Box? {
      TokensOrderedF(n.items, pos + 1, index + 1, index);
    }
  }

  lemma {:induction false} TokensOrderedF(f: Forest, pos: nat, index: nat, parent: int)
    ensures Ordered(TokensF(f, pos, index, parent))
    decreases f
  {
    if f.Item? {
      TokensOrdered(f.node, pos + |f.pad|, index, parent);
      TokensOrderedF(f.rest, pos + |f.pad| + |Text(f.node)|, index + Count(f.node), parent);
    }
  }
}
