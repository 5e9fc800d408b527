/** Path prefixes on component boundaries, and routing by them. */
module Router {
  import opened Wrappers

  const SLASH: byte := 47

  /** Without slashes at the end. */
  function TrimSlashes(p: Bytes): (t: Bytes)
    ensures t <= p && (t == [] || t[|t| - 1] != SLASH)
    ensures forall i :: |t| <= i < |p| ==> p[i] == SLASH
  {
    if p != [] && p[|p| - 1] == SLASH then TrimSlashes(p[..|p| - 1]) else p
  }

  /** What is left of `path` after `prefix` and one slash; `None` unless the prefix covers the path. */
  function Strip(path: Bytes, prefix: Bytes): Option<Bytes> {
    var p := TrimSlashes(prefix);
    if p == [] || !(p <= path) then None
    else
      var rest := path[|p|..];
      if rest == [] then Some([]) else if rest[0] == SLASH then Some(rest[1..]) else None
  }

  /** `rest` is what follows the prefix and one slash, or nothing when the path is the prefix. */
  predicate Rest(path: Bytes, prefix: Bytes, rest: Bytes) {
    && TrimSlashes(prefix) != []
    && (path == TrimSlashes(prefix) + [47] + rest || (rest == [] && path == TrimSlashes(prefix)))
  }

  lemma StripIff(path: Bytes, prefix: Bytes, rest: Bytes)
    ensures Strip(path, prefix) == Some(rest) <==> Rest(path, prefix, rest)
  {
    var p := TrimSlashes(prefix);
    if path == p + [47] + rest {
      assert path[|p|..] == [47] + rest && p <= path;
    }
    if p <= path {
      assert path == p + path[|p|..];
      if |p| < |path| && path[|p|] == 47 {
        assert path == p + [47] + path[|p| + 1..];
      }
    }
  }

  predicate Covers(prefix: Bytes, path: Bytes) {
    Strip(path, prefix).Some?
  }

  /** `path` is `p` itself or a component below it. */
  predicate Below(p: Bytes, path: Bytes) {
    p <= path && (|path| == |p| || path[|p|] == SLASH)
  }

  lemma CoversIsBelow(prefix: Bytes, path: Bytes)
    ensures Covers(prefix, path) <==> TrimSlashes(prefix) != [] && Below(TrimSlashes(prefix), path)
  {
  }

  /** Two prefixes overlap when one covers the other as a path. */
  predicate Overlap(a: Bytes, b: Bytes) {
    Covers(a, b) || Covers(b, a)
  }

  /** Two prefixes overlap exactly if some path is covered by both. */
  lemma OverlapIff(a: Bytes, b: Bytes)
    ensures Overlap(a, b) <==> exists path :: Covers(a, path) && Covers(b, path)
  {
    if Overlap(a, b) {
      if Covers(a, b) {
        CoversItself(a, b);
        assert Covers(a, b) && Covers(b, b);
      } else {
        CoversItself(b, a);
        assert Covers(a, a) && Covers(b, a);
      }
    }
    if path :| Covers(a, path) && Covers(b, path) {
      CommonPath(a, b, path);
    }
  }

  /** A prefix that is covered covers itself: it is not empty. */
  lemma CoversItself(a: Bytes, b: Bytes)
    requires Covers(a, b)
    ensures Covers(b, b)
  {
    var t, u := TrimSlashes(a), TrimSlashes(b);
    assert t <= b && t != [];
    assert b[|t| - 1] == t[|t| - 1] != SLASH;
    assert u != [];
    assert |u| < |b| ==> b[|u|] == SLASH;
  }

  lemma CommonPath(a: Bytes, b: Bytes, path: Bytes)
    requires Covers(a, path) && Covers(b, path)
    ensures Overlap(a, b)
  {
    var t, u := TrimSlashes(a), TrimSlashes(b);
    if |t| <= |u| {
      BelowPrefix(t, u, b, path);
      assert Covers(a, b);
    } else {
      BelowPrefix(u, t, a, path);
      assert Covers(b, a);
    }
  }

  /** The shorter of two prefixes of one path covers the longer, slashes at its end or not. */
  lemma BelowPrefix(t: Bytes, u: Bytes, b: Bytes, path: Bytes)
    requires |t| <= |u| && Below(t, path) && Below(u, path) && u == TrimSlashes(b)
    ensures Below(t, b)
  {
    assert t == path[..|t|] == u[..|t|] == b[..|t|];
    if |t| < |u| {
      assert b[|t|] == u[|t|] == path[|t|];
    } else if |t| < |b| {
      assert b[|t|] == SLASH;
    }
  }

  // ---- the configured routes ----

  datatype Routes = Routes(xhttp: Bytes, websocket: Option<Bytes>, panel: Bytes, subscription: Bytes)

  datatype Name = XhttpName | PanelName | SubscriptionName | WebsocketName

  /** The prefixes by name, in the order they are compared. */
  function Named(r: Routes): (named: seq<(Name, Bytes)>)
    ensures |named| == if r.websocket.Some? then 4 else 3
  {
    [(XhttpName, r.xhttp), (PanelName, r.panel), (SubscriptionName, r.subscription)]
    + if r.websocket.Some? then [(WebsocketName, r.websocket.value)] else []
  }

  /** The first pair of overlapping prefixes. */
  method ShadowingConflict(r: Routes) returns (conflict: Option<(Name, Name)>)
    ensures conflict.None? <==> NoPathTwice(r)
    ensures conflict.Some? ==> exists i, j :: 0 <= i < j < |Named(r)| && Overlap(Named(r)[i].1, Named(r)[j].1)
                                           && conflict.value == (Named(r)[i].0, Named(r)[j].0)
  {
    hide Overlap, Covers;
    var named := Named(r);
    for i := 0 to |named|
      invariant forall i', j' :: 0 <= i' < j' < |named| && i' < i ==> !Overlap(named[i'].1, named[j'].1)
    {
      for j := i + 1 to |named|
        invariant forall i', j' :: 0 <= i' < j' < |named| && (i' < i || (i' == i && j' < j)) ==>
                  !Overlap(named[i'].1, named[j'].1)
      {
        if Overlap(named[i].1, named[j].1) {
          OverlapIff(named[i].1, named[j].1);
          ghost var path :| Covers(named[i].1, path) && Covers(named[j].1, path);
          return Some((named[i].0, named[j].0));
        }
      }
    }
    forall i, j, path | 0 <= i < j < |named| && Covers(named[i].1, path) ensures !Covers(named[j].1, path) {
      OverlapIff(named[i].1, named[j].1);
    }
    return None;
  }

  /** No path is covered by two configured prefixes. */
  ghost predicate NoPathTwice(r: Routes) {
    forall i, j, path :: 0 <= i < j < |Named(r)| && Covers(Named(r)[i].1, path) ==> !Covers(Named(r)[j].1, path)
  }

  // ---- routing ----

  datatype Route = WebSocket | Panel(rest: Bytes) | Subscription(rest: Bytes) | Xhttp(rest: Bytes) | Decoy

  /** What a request is, by the prefix that covers its path, in the order they are tried. What is under the XHTTP
      prefix is classified further elsewhere. */
  function RouteOf(path: Bytes, isUpgrade: bool, r: Routes): Route {
    if isUpgrade then
      if r.websocket.Some? && Covers(r.websocket.value, path) then WebSocket else Decoy
    else if Covers(r.panel, path) then Panel(Strip(path, r.panel).value)
    else if Covers(r.subscription, path) then Subscription(Strip(path, r.subscription).value)
    else if Covers(r.xhttp, path) then Xhttp(Strip(path, r.xhttp).value)
    else Decoy
  }

  /** The route of a request without an upgrade: the panel before the subscription before XHTTP, each with what follows
      its prefix, and the decoy for every other path. */
  lemma RouteIff(path: Bytes, r: Routes, rest: Bytes)
    ensures RouteOf(path, false, r) == Panel(rest) <==> Rest(path, r.panel, rest)
    ensures RouteOf(path, false, r) == Subscription(rest)
       <==> Rest(path, r.subscription, rest) && !Covers(r.panel, path)
    ensures RouteOf(path, false, r) == Xhttp(rest)
       <==> Rest(path, r.xhttp, rest) && !Covers(r.panel, path) && !Covers(r.subscription, path)
    ensures RouteOf(path, false, r) == Decoy
       <==> !Covers(r.panel, path) && !Covers(r.subscription, path) && !Covers(r.xhttp, path)
    ensures RouteOf(path, true, r)
         == if r.websocket.Some? && Covers(r.websocket.value, path) then WebSocket else Decoy
  {
    StripIff(path, r.panel, rest);
    StripIff(path, r.subscription, rest);
    StripIff(path, r.xhttp, rest);
    hide Strip;
  }

  /** The same with the prefixes tried in the opposite order. */
  function RouteReversed(path: Bytes, isUpgrade: bool, r: Routes): Route {
    if isUpgrade then
      if r.websocket.Some? && Covers(r.websocket.value, path) then WebSocket else Decoy
    else if Covers(r.xhttp, path) then Xhttp(Strip(path, r.xhttp).value)
    else if Covers(r.subscription, path) then Subscription(Strip(path, r.subscription).value)
    else if Covers(r.panel, path) then Panel(Strip(path, r.panel).value)
    else Decoy
  }

  /** Without a conflict the order of the checks does not matter, and a request reaches a prefix exactly if that
      prefix covers its path. */
  lemma OrderDoesNotMatter(path: Bytes, isUpgrade: bool, r: Routes)
    requires NoPathTwice(r)
    ensures RouteOf(path, isUpgrade, r) == RouteReversed(path, isUpgrade, r)
    ensures !isUpgrade ==>
      && (RouteOf(path, isUpgrade, r).Panel? <==> Covers(r.panel, path))
      && (RouteOf(path, isUpgrade, r).Subscription? <==> Covers(r.subscription, path))
      && (RouteOf(path, isUpgrade, r).Xhttp? <==> Covers(r.xhttp, path))
  {
    hide Covers;
    var named := Named(r);
    assert named[0].1 == r.xhttp && named[1].1 == r.panel && named[2].1 == r.subscription;
  }

  /** Two of the three prefixes of plain requests overlap. */
  predicate PlainOverlap(r: Routes) {
    Overlap(r.panel, r.subscription) || Overlap(r.panel, r.xhttp) || Overlap(r.subscription, r.xhttp)
  }

  /** The websocket prefix overlaps one of the others. */
  predicate UpgradeOverlap(r: Routes) {
    && r.websocket.Some?
    && var w := r.websocket.value;
       Overlap(r.panel, w) || Overlap(r.subscription, w) || Overlap(r.xhttp, w)
  }

  /** Some path is routed by the order of the checks exactly when two prefixes of plain requests overlap. */
  lemma OrderMatters(r: Routes)
    ensures PlainOverlap(r) <==> exists path :: RouteOf(path, false, r) != RouteReversed(path, false, r)
  {
    hide Covers;
    OverlapIff(r.panel, r.subscription);
    OverlapIff(r.panel, r.xhttp);
    OverlapIff(r.subscription, r.xhttp);
    hide Overlap;
    if PlainOverlap(r) {
      var path :| (Covers(r.panel, path) && Covers(r.subscription, path))
        || (Covers(r.panel, path) && Covers(r.xhttp, path))
                  || (Covers(r.subscription, path) && Covers(r.xhttp, path));
      assert RouteOf(path, false, r) != RouteReversed(path, false, r);
    }
  }

  /** Some path is the websocket for an upgrade and another route without one exactly when the websocket prefix
      overlaps another. */
  lemma UpgradeMatters(r: Routes)
    ensures UpgradeOverlap(r) <==> exists path :: RouteOf(path, true, r).WebSocket? && !RouteOf(path, false, r).Decoy?
  {
    hide Covers;
    if r.websocket.Some? {
      var w := r.websocket.value;
      OverlapIff(r.panel, w);
      OverlapIff(r.subscription, w);
      OverlapIff(r.xhttp, w);
      hide Overlap;
      if UpgradeOverlap(r) {
        var path :| Covers(w, path) && (Covers(r.panel, path) || Covers(r.subscription, path) || Covers(r.xhttp, path));
        assert RouteOf(path, true, r).WebSocket? && !RouteOf(path, false, r).Decoy?;
      }
    }
  }

  /** What a configuration without conflicts rules out, and all it rules out: a path whose route depends on the order
      of the checks, and a path that is the websocket only because the request is an upgrade. */
  lemma ConflictIff(r: Routes)
    ensures NoPathTwice(r) <==>
            && (forall path :: RouteOf(path, false, r) == RouteReversed(path, false, r))
            && (forall path :: RouteOf(path, true, r).WebSocket? ==> RouteOf(path, false, r).Decoy?)
  {
    OrderMatters(r);
    UpgradeMatters(r);
    NoOverlap(r);
    hide RouteOf, RouteReversed, NoPathTwice, PlainOverlap, UpgradeOverlap;
  }

  lemma NoOverlap(r: Routes)
    ensures NoPathTwice(r) <==> !PlainOverlap(r) && !UpgradeOverlap(r)
  {
    hide Covers, Overlap;
    var named := Named(r);
    assert named[0].1 == r.xhttp && named[1].1 == r.panel && named[2].1 == r.subscription;
    Symmetric(r.panel, r.xhttp);
    Symmetric(r.subscription, r.xhttp);
    if NoPathTwice(r) {
      forall i, j | 0 <= i < j < |named| ensures !Overlap(named[i].1, named[j].1) {
        OverlapIff(named[i].1, named[j].1);
      }
      assert !Overlap(named[0].1, named[1].1) && !Overlap(named[0].1, named[2].1) && !Overlap(named[1].1, named[2].1);
      if r.websocket.Some? {
        assert !Overlap(named[0].1, named[3].1) && !Overlap(named[1].1, named[3].1) && !Overlap(named[2].1, named[3].1);
      }
    } else {
      var i, j, path :| 0 <= i < j < |named| && Covers(named[i].1, path) && Covers(named[j].1, path);
      OverlapIff(named[i].1, named[j].1);
    }
  }

  lemma Symmetric(a: Bytes, b: Bytes)
    ensures Overlap(a, b) == Overlap(b, a)
  {
  }
}
