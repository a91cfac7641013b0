/**
 * Snapshot references such as `/ipfs/<cid>` or `/ipns/<key>`: splitting them
 * on `/`, choosing the protocol, stripping the `/ipfs/` prefix of a resolved
 * path, and the 15-second bucket that rate-limits name resolution.
 */
module References {
  import opened Wrappers

  const Separator: char := '/'

  /** `s.split("/")`: the pieces between separators, always at least one. */
  function Split(s: string): (parts: seq<string>)
    ensures |parts| >= 1
    ensures forall p :: p in parts ==> Separator !in p
    decreases |s|
  {
    if s == [] then [""]
    else
      var rest := Split(s[1..]);
      if s[0] == Separator then [""] + rest
      else [[s[0]] + rest[0]] + rest[1..]
  }

  /** The inverse of Split: the pieces glued back together with `/`. */
  function Join(parts: seq<string>): string
    requires |parts| >= 1
  {
    if |parts| == 1 then parts[0] else parts[0] + [Separator] + Join(parts[1..])
  }

  lemma {:induction false} JoinSplit(s: string)
    ensures Join(Split(s)) == s
    decreases |s|
  {
    if s != [] {
      var rest := Split(s[1..]);
      JoinSplit(s[1..]);
      if s[0] == Separator {
        assert Split(s) == [""] + rest;
        assert ([""] + rest)[1..] == rest;
      } else if |rest| > 1 {
        assert Split(s) == [[s[0]] + rest[0]] + rest[1..];
        assert ([[s[0]] + rest[0]] + rest[1..])[1..] == rest[1..];
        assert Join(rest) == rest[0] + [Separator] + Join(rest[1..]);
      } else {
        assert Split(s) == [[s[0]] + rest[0]];
      }
    }
  }

  /** A piece without separators splits to itself. */
  lemma {:induction false} SplitPlain(a: string)
    requires Separator !in a
    ensures Split(a) == [a]
    decreases |a|
  {
    if a != [] {
      SplitPlain(a[1..]);
      assert [a[0]] + a[1..] == a;
    }
  }

  /** Splitting `a/t` peels off `a` when `a` holds no separator. */
  lemma {:induction false} SplitAfterPiece(a: string, t: string)
    requires Separator !in a
    ensures Split(a + [Separator] + t) == [a] + Split(t)
    decreases |a|
  {
    var s := a + [Separator] + t;
    if a == [] {
      assert s[1..] == t;
    } else {
      assert s[0] == a[0];
      assert s[1..] == a[1..] + [Separator] + t;
      SplitAfterPiece(a[1..], t);
      assert [a[0]] + a[1..] == a;
    }
  }

  lemma {:induction false} SplitJoin(parts: seq<string>)
    requires |parts| >= 1
    requires forall p :: p in parts ==> Separator !in p
    ensures Split(Join(parts)) == parts
    decreases |parts|
  {
    if |parts| == 1 {
      SplitPlain(parts[0]);
    } else {
      SplitJoin(parts[1..]);
      SplitAfterPiece(parts[0], Join(parts[1..]));
      assert [parts[0]] + parts[1..] == parts;
    }
  }

  /** `s.split("/")[i]`, which is `undefined` past the last piece. */
  function Segment(s: string, i: nat): (segment: Option<string>)
    ensures segment.Some? ==> Separator !in segment.value
    ensures segment.None? <==> i >= |Split(s)|
  {
    var parts := Split(s);
    if i < |parts| then Some(parts[i]) else None
  }

  lemma SegmentOfJoin(parts: seq<string>, i: nat)
    requires |parts| >= 1
    requires forall p :: p in parts ==> Separator !in p
    ensures Segment(Join(parts), i) == if i < |parts| then Some(parts[i]) else None
  {
    SplitJoin(parts);
  }

  /** How a segment reads inside a template string: `${undefined}` prints "undefined". */
  function AsText(segment: Option<string>): string
  {
    match segment
    case Some(s) => s
    case None => "undefined"
  }

  /** The length of `/ipfs/`, dropped from a resolved name by `Path.slice(6)`. */
  const IpfsPrefixLength: nat := 6

  /** `path.slice(6)`: the text after the sixth character, empty for a shorter path. */
  function DropIpfsPrefix(path: string): (rest: string)
    ensures |rest| == if |path| <= IpfsPrefixLength then 0 else |path| - IpfsPrefixLength
    ensures rest == path[|path| - |rest|..]
  {
    if |path| <= IpfsPrefixLength then "" else path[IpfsPrefixLength..]
  }

  lemma DropIpfsPrefixOfPath(cid: string)
    ensures DropIpfsPrefix("/ipfs/" + cid) == cid
  {
    assert ("/ipfs/" + cid)[IpfsPrefixLength..] == cid;
  }

  /** Width, in milliseconds, of one `cacheBust` bucket. */
  const CacheWindowMs: nat := 15000

  /** `Math.floor(Date.now() / 1000 / 15)` on a non-negative millisecond clock. */
  function CacheBucket(nowMs: nat): (bucket: nat)
    ensures bucket * CacheWindowMs <= nowMs < (bucket + 1) * CacheWindowMs
  {
    nowMs / CacheWindowMs
  }

  /** Every instant of the k-th 15-second window falls into bucket k. */
  lemma WindowBucket(nowMs: nat, k: nat)
    requires k * CacheWindowMs <= nowMs < (k + 1) * CacheWindowMs
    ensures CacheBucket(nowMs) == k
  {
  }

  /** A later instant never falls into an earlier bucket. */
  lemma BucketMonotone(earlier: nat, later: nat)
    requires earlier <= later
    ensures CacheBucket(earlier) <= CacheBucket(later)
  {
  }

  /** Why resolving a reference can fail: an unknown protocol is thrown, as is a failed name lookup. */
  datatype RefError = InvalidProtocol(protocol: string) | Unresolved

  /** The naming service: an IPNS name and a cache bucket to the resolved `Path`, or a failed request. */
  type Resolver = (string, nat) -> Option<string>

  /** `#resolveIPNS(ref).Path`: the third segment is the name, asked for within the current bucket. */
  function ResolvePath(ref: string, nowMs: nat, resolve: Resolver): (path: Option<string>)
    ensures forall k: nat :: k * CacheWindowMs <= nowMs < (k + 1) * CacheWindowMs ==> path == resolve(AsText(Segment(ref, 2)), k)
  {
    resolve(AsText(Segment(ref, 2)), CacheBucket(nowMs))
  }

  lemma ResolveWithinWindow(ref: string, a: nat, b: nat, k: nat, resolve: Resolver)
    requires k * CacheWindowMs <= a < (k + 1) * CacheWindowMs
    requires k * CacheWindowMs <= b < (k + 1) * CacheWindowMs
    ensures ResolvePath(ref, a, resolve) == ResolvePath(ref, b, resolve)
  {
    WindowBucket(a, k);
    WindowBucket(b, k);
  }

  /**
   * The configuration id a reference stands for: `ipfs` names it in the third
   * segment, `ipns` names a key whose resolved path loses its `/ipfs/` prefix,
   * anything else is an invalid protocol.
   */
  function ConfigurationId(ref: string, nowMs: nat, resolve: Resolver): (r: Result<string, RefError>)
    ensures r.Err? && r.error.InvalidProtocol? <==> Segment(ref, 1) != Some("ipfs") && Segment(ref, 1) != Some("ipns")
    ensures r == Err(Unresolved) <==> Segment(ref, 1) == Some("ipns") && ResolvePath(ref, nowMs, resolve).None?
  {
    var protocol := Segment(ref, 1);
    if protocol == Some("ipns") then
      match ResolvePath(ref, nowMs, resolve)
      case Some(path) => Ok(DropIpfsPrefix(path))
      case None => Err(Unresolved)
    else if protocol == Some("ipfs") then
      Ok(AsText(Segment(ref, 2)))
    else
      Err(InvalidProtocol(AsText(protocol)))
  }

  /** `/ipfs/<cid>`, with or without a trailing path, names `<cid>`. */
  lemma ImmutableReference(cid: string, tail: seq<string>, nowMs: nat, resolve: Resolver)
    requires Separator !in cid
    requires forall p :: p in tail ==> Separator !in p
    ensures ConfigurationId(Join(["", "ipfs", cid] + tail), nowMs, resolve) == Ok(cid)
  {
    var parts := ["", "ipfs", cid] + tail;
    assert forall p :: p in parts ==> Separator !in p;
    SegmentOfJoin(parts, 1);
    SegmentOfJoin(parts, 2);
  }

  /** `/ipns/<key>` names the resolved path of `<key>` minus its first six characters. */
  lemma MutableReference(key: string, nowMs: nat, resolve: Resolver)
    requires Separator !in key
    ensures ConfigurationId("/ipns/" + key, nowMs, resolve) ==
      match resolve(key, CacheBucket(nowMs))
      case Some(path) => Ok(DropIpfsPrefix(path))
      case None => Err(Unresolved)
  {
    var parts := ["", "ipns", key];
    assert Join(parts[2..]) == key;
    assert Join(parts[1..]) == "ipns/" + key;
    assert Join(parts) == "/ipns/" + key;
    SegmentOfJoin(parts, 1);
    SegmentOfJoin(parts, 2);
  }

  /** A reference without any `/` has no protocol segment: "Invalid Protocol: undefined". */
  lemma ReferenceWithoutSeparator(ref: string, nowMs: nat, resolve: Resolver)
    requires Separator !in ref
    ensures ConfigurationId(ref, nowMs, resolve) == Err(InvalidProtocol("undefined"))
  {
    SplitPlain(ref);
  }
}
