/** What the identifier pattern does with the identifiers the registry
    loader builds: every successful match reassembles its input, every
    string of the pattern's shape matches, and an identifier built from
    dot-free path components gives those components back
    (build/discoverable.js:76-82 against lines 131-145). */
module Identifiers {
  import opened Common
  import opened Registry
  import opened Resolver

  /** The groups an identifier built from `components` should split into. */
  function ExpectedGroups(components: seq<string>): Groups
  {
    if |components| == 3 then Groups(Some(components[0]), components[1], components[2])
    else Groups(None, Component(components, 0), Component(components, 1))
  }

  predicate DotFree(s: string)
  {
    '.' !in s
  }

  /** An occurrence fixes every character it covers. */
  lemma OccursChars(s: string, pat: string, i: int)
    ensures OccursAt(s, pat, i) ==> forall j :: 0 <= j < |pat| ==> s[i + j] == pat[j]
  {
    if OccursAt(s, pat, i) {
      forall j | 0 <= j < |pat| ensures s[i + j] == pat[j] {
        assert s[i..i + |pat|][j] == s[i + j];
      }
    }
  }

  lemma TailReassembles(r: string)
    requires MatchTypeProtocol(r).Some?
    ensures r == TypeAndProtocol(MatchTypeProtocol(r).value.serviceType, MatchTypeProtocol(r).value.protocol)
  {
    var k := LastIndexOf(r, "._", 1, |r| - 2).value;
    assert r[k..k + 2] == "._";
    assert r == r[..1] + r[1..k] + r[k..k + 2] + r[k + 2..];
  }

  lemma SubtypedReassembles(s: string, i: int)
    requires |s| > 0 && s[0] == '_' && SubtypeSplitAt(s, i)
    ensures s == SubtypePrefix(s[1..i]) + s[i + 6..]
  {
    assert s[i..i + 6] == "._sub.";
    assert s[..i + 6] == s[..1] + s[1..i] + s[i..i + 6];
    assert s == s[..i + 6] + s[i + 6..];
  }

  /** A successful match splits its input without loss: the groups,
      written back into the pattern, give the input exactly. */
  lemma MatchReassembles(s: string)
    requires MatchIdentifier(s).Some?
    ensures Assemble(MatchIdentifier(s).value) == s
  {
    var split := LastSubtypeSplit(s, |s| - 6);
    if split.Some? {
      var i := split.value;
      SubtypedReassembles(s, i);
      TailReassembles(s[i + 6..]);
    } else {
      TailReassembles(s);
    }
  }

  lemma TailMatches(t: string, p: string)
    ensures MatchTypeProtocol(TypeAndProtocol(t, p)).Some?
  {
    var r := TypeAndProtocol(t, p);
    assert r[1 + |t|..1 + |t| + 2] == "._";
    assert OccursAt(r, "._", 1 + |t|);
  }

  /** Every line-terminator-free string of the pattern's shape matches it. */
  lemma MatchComplete(g: Groups)
    requires NoLineTerminator(Assemble(g))
    ensures MatchIdentifier(Assemble(g)).Some?
  {
    var s := Assemble(g);
    var r := TypeAndProtocol(g.serviceType, g.protocol);
    TailMatches(g.serviceType, g.protocol);
    if g.subtype.Some? {
      var a := g.subtype.value;
      assert s == SubtypePrefix(a) + r;
      assert s[1 + |a| + 6..] == r;
      assert s[1 + |a|..1 + |a| + 6] == "._sub.";
      assert SubtypeSplitAt(s, 1 + |a|);
    } else {
      assert s == r;
    }
  }

  /** In `_b._c` with `b`, `c` dot-free, the only `.` is the separator. */
  lemma TailDots(b: string, c: string)
    requires DotFree(b) && DotFree(c)
    ensures var r := TypeAndProtocol(b, c);
            forall k :: 0 <= k < |r| && k != 1 + |b| ==> r[k] != '.'
  {
    var r := TypeAndProtocol(b, c);
    forall k | 0 <= k < |r| && k != 1 + |b| ensures r[k] != '.' {
      if 1 <= k < 1 + |b| {
        assert r[k] == b[k - 1];
        assert b[k - 1] in b;
      } else if k > 2 + |b| {
        assert r[k] == c[k - 3 - |b|];
        assert c[k - 3 - |b|] in c;
      }
    }
  }

  /** The type and protocol of `_b._c` are `b` and `c` when both are dot-free. */
  lemma TailSplitsAtOnlySeparator(b: string, c: string)
    requires DotFree(b) && DotFree(c)
    ensures MatchTypeProtocol(TypeAndProtocol(b, c)) == Some(Tail(b, c))
  {
    var r := TypeAndProtocol(b, c);
    TailMatches(b, c);
    var k := LastIndexOf(r, "._", 1, |r| - 2).value;
    assert k == 1 + |b| by {
      OccursChars(r, "._", k);
      TailDots(b, c);
      assert r[k + 0] == "._"[0] == '.';
    }
    assert r[1..k] == b && r[k + 2..] == c;
  }

  /** `_c` with `c` dot-free has no `._` after its first character. */
  lemma NoSeparator(c: string)
    requires DotFree(c)
    ensures MatchTypeProtocol("_" + c).None?
  {
    var r := "_" + c;
    forall k | 1 <= k <= |r| - 2 ensures !OccursAt(r, "._", k) {
      OccursChars(r, "._", k);
      assert r[k] == c[k - 1];
      assert c[k - 1] in c;
    }
  }

  /** `_a._sub._b._c` with dot-free components has no `._sub.` split after the first. */
  lemma NoLaterSplit(a: string, b: string, c: string, i: int)
    requires DotFree(a) && DotFree(b) && DotFree(c)
    requires 1 + |a| < i
    ensures !SubtypeSplitAt(SubtypePrefix(a) + TypeAndProtocol(b, c), i)
  {
    var t := TypeAndProtocol(b, c);
    var s := SubtypePrefix(a) + t;
    var p := 1 + |a|;
    assert |SubtypePrefix(a)| == p + 6;
    if i + 6 <= |s| {
      if i < p + 5 {
        assert s[i] != '.' by {
          assert s[p..p + 6] == "._sub.";
          assert s[i] == s[p..p + 6][i - p];
        }
      } else if i == p + 5 {
        if |b| == 3 {
          assert MatchTypeProtocol(s[i + 6..]).None? by {
            assert s[i + 6..] == t[5..] == "_" + c;
            NoSeparator(c);
          }
        } else {
          assert s[i + 5] != '.' by {
            TailDots(b, c);
            assert s[i + 5] == t[4];
          }
        }
      } else {
        assert s[i] != '.' || s[i + 5] != '.' by {
          TailDots(b, c);
          assert s[i] == t[i - p - 6];
          assert s[i + 5] == t[i - p - 1];
        }
      }
    }
    SubtypeMarkerDots(s, i);
  }

  /** `_a._sub._b._c` with dot-free components splits at the only `._sub.`. */
  lemma SubtypedSplit(a: string, b: string, c: string)
    requires DotFree(a) && DotFree(b) && DotFree(c)
    ensures var s := SubtypePrefix(a) + TypeAndProtocol(b, c);
            LastSubtypeSplit(s, |s| - 6) == Some(1 + |a|)
  {
    var t := TypeAndProtocol(b, c);
    var s := SubtypePrefix(a) + t;
    var p := 1 + |a|;
    assert s[p..p + 6] == "._sub." && s[p + 6..] == t;
    TailSplitsAtOnlySeparator(b, c);
    assert SubtypeSplitAt(s, p);
    var i := LastSubtypeSplit(s, |s| - 6).value;
    if i != p {
      NoLaterSplit(a, b, c, i);
    }
  }

  /** An occurrence of `._sub.` puts a dot at its first and last position. */
  lemma SubtypeMarkerDots(s: string, i: int)
    ensures OccursAt(s, "._sub.", i) ==> s[i] == '.' && s[i + 5] == '.'
  {
    OccursChars(s, "._sub.", i);
  }

  /** `_a._b` with dot-free components has no `._sub.` split. */
  lemma UnsubtypedSplit(a: string, b: string)
    requires DotFree(a) && DotFree(b)
    ensures var s := TypeAndProtocol(a, b);
            LastSubtypeSplit(s, |s| - 6).None?
  {
    var s := TypeAndProtocol(a, b);
    TailDots(a, b);
    forall i | i <= |s| - 6 ensures !SubtypeSplitAt(s, i) {
      SubtypeMarkerDots(s, i);
    }
  }

  /** Every component of a path is free of dots and line terminators. */
  predicate PlainComponents(components: seq<string>)
  {
    forall k :: 0 <= k < |components| ==> DotFree(components[k]) && NoLineTerminator(components[k])
  }

  lemma PlainComponent(components: seq<string>, i: nat)
    requires PlainComponents(components)
    ensures DotFree(Component(components, i)) && NoLineTerminator(Component(components, i))
  {
    if i >= |components| {
      assert Component(components, i) == "undefined";
    }
  }

  /** A concatenation is free of line terminators exactly when its parts are. */
  lemma NoLineTerminatorConcat(x: string, y: string)
    ensures NoLineTerminator(x + y) <==> NoLineTerminator(x) && NoLineTerminator(y)
  {
    assert forall c :: c in x + y <==> c in x || c in y;
  }

  lemma SubtypedNoLineTerminator(a: string, b: string, c: string)
    requires NoLineTerminator(a) && NoLineTerminator(b) && NoLineTerminator(c)
    ensures NoLineTerminator(SubtypePrefix(a) + TypeAndProtocol(b, c))
  {
    NoLineTerminatorConcat("_", a);
    NoLineTerminatorConcat("_" + a, "._sub.");
    NoLineTerminatorConcat("_", b);
    NoLineTerminatorConcat("_" + b, "._");
    NoLineTerminatorConcat("_" + b + "._", c);
    NoLineTerminatorConcat(SubtypePrefix(a), TypeAndProtocol(b, c));
  }

  lemma SubtypedTail(a: string, b: string, c: string)
    requires DotFree(b) && DotFree(c)
    ensures var s := SubtypePrefix(a) + TypeAndProtocol(b, c);
            MatchTypeProtocol(s[1 + |a| + 6..]) == Some(Tail(b, c))
  {
    var s := SubtypePrefix(a) + TypeAndProtocol(b, c);
    assert s[1 + |a| + 6..] == TypeAndProtocol(b, c);
    TailSplitsAtOnlySeparator(b, c);
  }

  lemma RoundTripSubtyped(a: string, b: string, c: string)
    requires DotFree(a) && DotFree(b) && DotFree(c)
    requires NoLineTerminator(a) && NoLineTerminator(b) && NoLineTerminator(c)
    ensures MatchIdentifier(SubtypePrefix(a) + TypeAndProtocol(b, c)) == Some(Groups(Some(a), b, c))
  {
    var s := SubtypePrefix(a) + TypeAndProtocol(b, c);
    var i := 1 + |a|;
    assert NoLineTerminator(s) by { SubtypedNoLineTerminator(a, b, c); }
    assert LastSubtypeSplit(s, |s| - 6) == Some(i) by { SubtypedSplit(a, b, c); }
    assert MatchTypeProtocol(s[i + 6..]) == Some(Tail(b, c)) by { SubtypedTail(a, b, c); }
    assert s[0] == '_' && s[1..i] == a;
    MatchAtSplit(s, i, b, c);
  }

  /** The match when the optional group ends at `i + 6`. */
  lemma MatchAtSplit(s: string, i: nat, b: string, c: string)
    requires NoLineTerminator(s) && |s| > 0 && s[0] == '_'
    requires LastSubtypeSplit(s, |s| - 6) == Some(i)
    requires MatchTypeProtocol(s[i + 6..]) == Some(Tail(b, c))
    ensures MatchIdentifier(s) == Some(Groups(Some(s[1..i]), b, c))
  {
    assert MatchIdentifier(s) == GroupsAt(s, Some(i));
  }

  lemma RoundTripPlain(a: string, b: string)
    requires DotFree(a) && DotFree(b)
    requires NoLineTerminator(a) && NoLineTerminator(b)
    ensures MatchIdentifier(TypeAndProtocol(a, b)) == Some(Groups(None, a, b))
  {
    UnsubtypedSplit(a, b);
    TailSplitsAtOnlySeparator(a, b);
  }

  /** The round trip: the identifier built from dot-free, line-terminator-free
      path components matches the pattern and gives back the components:
      `a/b/c` gives subtype `a`, type `b`, protocol `c`; any other depth gives
      no subtype and type and protocol from the first two components. */
  lemma RoundTrip(components: seq<string>)
    requires PlainComponents(components)
    ensures MatchIdentifier(ServiceName(components)) == Some(ExpectedGroups(components))
  {
    PlainComponent(components, 0);
    PlainComponent(components, 1);
    if |components| == 3 {
      PlainComponent(components, 2);
      RoundTripSubtyped(components[0], components[1], components[2]);
    } else {
      RoundTripPlain(Component(components, 0), Component(components, 1));
    }
  }

  /** `determineServiceInfo` on an entry built from such a path: subtypes
      `[a]`, type `b`, protocol `c` for `a/b/c`; subtypes `[]`, type `a`,
      protocol `b` for `a/b`. */
  lemma ServiceInfoRoundTrip(components: seq<string>, tags: seq<string>)
    requires PlainComponents(components)
    ensures DetermineServiceInfo(ServiceEntry(ServiceName(components), tags)) ==
      Success(if |components| == 3
              then ServiceInfo([components[0]], Some(components[1]), Some(components[2]))
              else ServiceInfo([], Some(Component(components, 0)), Some(Component(components, 1))))
  {
    RoundTrip(components);
  }

  /** A registry tree whose directory names are free of dots and line terminators. */
  ghost predicate PlainTree(node: Node)
    decreases node
  {
    node.Directory? ==>
      forall e :: e in node.entries && e.kind.SubDirectory? ==>
        DotFree(e.name) && NoLineTerminator(e.name) && PlainTree(e.kind.node)
  }

  lemma {:induction false} ReachablePlain(root: Node, rel: seq<string>, target: Node)
    requires PlainTree(root) && Reachable(root, rel, target)
    ensures PlainComponents(rel)
    decreases |rel|
  {
    if rel != [] {
      var e :| e in root.entries && e.name == rel[0] && e.kind.SubDirectory? && Reachable(e.kind.node, rel[1..], target);
      ReachablePlain(e.kind.node, rel[1..], target);
      assert forall k :: 1 <= k < |rel| ==> rel[k] == rel[1..][k - 1];
    }
  }

  /** Every identifier the loader builds from a tree with plain directory
      names parses, giving back the names along the leaf's path. */
  lemma PlainRegistryParses(root: Node, k: int)
    requires PlainTree(root) && LoadRegistry(root).Success?
    requires 0 <= k < |LoadRegistry(root).value|
    ensures exists rel :: (PlainComponents(rel)
      && LoadRegistry(root).value[k].service == ServiceName(rel)
      && MatchIdentifier(ServiceName(rel)) == Some(ExpectedGroups(rel)))
    ensures DetermineServiceInfo(LoadRegistry(root).value[k]).Success?
  {
    var leaves := Scan(root, []).value;
    BuildCatalogEntries(leaves);
    var leaf := leaves[k];
    ScanSound(root, [], leaf);
    var rel, target :| leaf.path == [] + rel && Reachable(root, rel, target);
    ReachablePlain(root, rel, target);
    assert leaf.path == rel;
    RoundTrip(rel);
  }
}
