/** The service resolver: `findValidService` (build/discoverable.js:116-122)
    looks a caller's string up in the catalog, and `determineServiceInfo`
    (lines 131-145) splits the matched identifier with the pattern
    `^(_(.*)\._sub\.)?_(.*)\._(.*)$`. */
module Resolver {
  import opened Common
  import opened Registry

  /** `indexOf.call([service].concat(tags), id) >= 0` (line 120). */
  predicate Matches(entry: ServiceEntry, id: string)
  {
    id == entry.service || id in entry.tags
  }

  /** `_.find` over the catalog: the first entry, in catalog order, whose
      identifier or one of whose tags is `id`; nothing when none is. */
  function FindValidService(id: string, catalog: seq<ServiceEntry>): (r: Option<ServiceEntry>)
    ensures r.None? <==> forall k :: 0 <= k < |catalog| ==> !Matches(catalog[k], id)
    ensures r.Some? ==>
      exists k :: 0 <= k < |catalog| && catalog[k] == r.value && Matches(catalog[k], id)
        && forall j :: 0 <= j < k ==> !Matches(catalog[j], id)
  {
    if catalog == [] then None
    else if Matches(catalog[0], id) then Some(catalog[0])
    else
      var r := FindValidService(id, catalog[1..]);
      assert r.Some? ==> (exists k :: 1 <= k < |catalog| && catalog[k] == r.value && Matches(catalog[k], id)
                           && forall j :: 0 <= j < k ==> !Matches(catalog[j], id)) by {
        if r.Some? {
          var k :| 0 <= k < |catalog[1..]| && catalog[1..][k] == r.value && Matches(catalog[1..][k], id)
            && forall j :: 0 <= j < k ==> !Matches(catalog[1..][j], id);
          assert catalog[k + 1] == r.value;
          forall j | 0 <= j < k + 1 ensures !Matches(catalog[j], id) {
            if j > 0 { assert catalog[j] == catalog[1..][j - 1]; }
          }
        }
      }
      r
  }

  /** JavaScript's line terminators, which `.` in a pattern does not match. */
  predicate IsLineTerminator(c: char)
  {
    c == '\n' || c == '\r' || c == '\U{2028}' || c == '\U{2029}'
  }

  predicate NoLineTerminator(s: string)
  {
    forall c :: c in s ==> !IsLineTerminator(c)
  }

  /** `pat` occurs in `s` at position `k`. */
  predicate OccursAt(s: string, pat: string, k: int)
  {
    0 <= k && k + |pat| <= |s| && s[k..k + |pat|] == pat
  }

  /** The last occurrence of `pat` in `s` starting between `lo` and `hi`:
      where a greedy `(.*)` followed by `pat` stops. */
  function LastIndexOf(s: string, pat: string, lo: nat, hi: int): (r: Option<nat>)
    ensures r.Some? ==>
      lo <= r.value <= hi && OccursAt(s, pat, r.value)
      && forall k :: r.value < k <= hi ==> !OccursAt(s, pat, k)
    ensures r.None? ==> forall k :: lo <= k <= hi ==> !OccursAt(s, pat, k)
    decreases hi - lo
  {
    if hi < lo then None
    else if OccursAt(s, pat, hi) then Some(hi)
    else LastIndexOf(s, pat, lo, hi - 1)
  }

  /** `_(.*)\._(.*)$` on `r`, with the greedy first group: the type and the
      protocol, split at the last `._`. */
  function MatchTypeProtocol(r: string): Option<Tail>
  {
    if |r| == 0 || r[0] != '_' then None
    else
      match LastIndexOf(r, "._", 1, |r| - 2)
      case None => None
      case Some(k) => Some(Tail(r[1..k], r[k + 2..]))
  }

  /** Groups 3 and 4. */
  datatype Tail = Tail(serviceType: string, protocol: string)

  /** The optional group `(_(.*)\._sub\.)` can end at `i + 6` and the rest of the pattern still match. */
  predicate SubtypeSplitAt(s: string, i: int)
  {
    1 <= i && OccursAt(s, "._sub.", i) && MatchTypeProtocol(s[i + 6..]).Some?
  }

  /** The largest split point at most `hi`: the greedy `(.*)` of group 2
      backtracks from the right until the rest of the pattern matches. */
  function LastSubtypeSplit(s: string, hi: int): (r: Option<nat>)
    ensures r.Some? ==>
      r.value <= hi && SubtypeSplitAt(s, r.value)
      && forall i :: r.value < i <= hi ==> !SubtypeSplitAt(s, i)
    ensures r.None? ==> forall i :: i <= hi ==> !SubtypeSplitAt(s, i)
    decreases hi
  {
    if hi < 1 then None
    else if SubtypeSplitAt(s, hi) then Some(hi)
    else LastSubtypeSplit(s, hi - 1)
  }

  /** The capture groups of a successful match: group 2 (present exactly
      when group 1 is), group 3 and group 4. */
  datatype Groups = Groups(subtype: Option<string>, serviceType: string, protocol: string)

  /** `service.match(/^(_(.*)\._sub\.)?_(.*)\._(.*)$/)` (line 134); `None` is
      a null match. */
  function MatchIdentifier(s: string): (r: Option<Groups>)
    ensures r.Some? ==> |s| > 0 && s[0] == '_'
  {
    if !NoLineTerminator(s) || |s| == 0 || s[0] != '_' then None
    else GroupsAt(s, LastSubtypeSplit(s, |s| - 6))
  }

  /** The groups once the optional group is known to end at `split + 6`,
      or to be absent. */
  function GroupsAt(s: string, split: Option<nat>): Option<Groups>
    requires split.Some? ==> SubtypeSplitAt(s, split.value)
  {
    match split
    case Some(i) =>
      var tp := MatchTypeProtocol(s[i + 6..]).value;
      Some(Groups(Some(s[1..i]), tp.serviceType, tp.protocol))
    case None =>
      match MatchTypeProtocol(s)
      case None => None
      case Some(tp) => Some(Groups(None, tp.serviceType, tp.protocol))
  }

  /** The string a set of groups stands for in the pattern. */
  function Assemble(g: Groups): string
  {
    (if g.subtype.Some? then SubtypePrefix(g.subtype.value) else "") + TypeAndProtocol(g.serviceType, g.protocol)
  }

  /** What `determineServiceInfo` returns: `subtypes` always, `type` and
      `protocol` when groups 3 and 4 are defined. */
  datatype ServiceInfo = ServiceInfo(subtypes: seq<string>, serviceType: Option<string>, protocol: Option<string>)

  /** `determineServiceInfo(service)` (lines 131-145). A null match throws
      when `types[1]` is read. */
  function DetermineServiceInfo(entry: ServiceEntry): (r: Result<ServiceInfo>)
    ensures r.Failure? <==> MatchIdentifier(entry.service).None?
    ensures r.Failure? ==> r.error == NoMatch(entry.service)
    ensures r.Success? ==> r.value.serviceType.Some? && r.value.protocol.Some? && |r.value.subtypes| <= 1
  {
    match MatchIdentifier(entry.service)
    case None => Failure(NoMatch(entry.service))
    case Some(g) =>
      var subtypes := if g.subtype.None? then [] else [g.subtype.value];
      Success(ServiceInfo(subtypes, Some(g.serviceType), Some(g.protocol)))
  }
}
