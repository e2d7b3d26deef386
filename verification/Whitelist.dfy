/**
 The artifact whitelist (pkg/artifact/handler.go, model.go, msg.go) and the pod admission that reads it
 (pkg/webhook/validatingwebhook.go). The bucket is a map from image to artifact; messages arrive
 decoded, with the set of addresses that signed the transaction.
 */
module Whitelist {
  import opened Wire
  import opened Bindings

  datatype Artifact = Artifact(schema: nat, image: bytes, checksum: bytes, owner: bytes)

  /** `schema` is `None` for a message without metadata. */
  datatype Msg =
    | Create(schema: Option<nat>, image: bytes, checksum: bytes, owner: bytes)
    | Delete(schema: Option<nat>, image: bytes)

  datatype Delivery = Delivery(msg: Msg, signers: set<bytes>)

  datatype Result = Delivered | BadMessage | NotFound | Unauthorized

  // ----- Validation -----

  const COLON: byte := 0x3a
  const MAX_IMAGE_LENGTH := 255

  predicate AlphaNumeric(s: bytes) {
    forall i | 0 <= i < |s| :: 0x30 <= s[i] <= 0x39 || 0x41 <= s[i] <= 0x5a || 0x61 <= s[i] <= 0x7a
  }

  /** The part up to `i` names an algorithm, the rest is the digest. */
  predicate ColonAt(s: bytes, i: nat) {
    && i <= 10 && i < |s| - 1 && |s| - i - 1 <= 100
    && s[i] == COLON && AlphaNumeric(s[..i]) && AlphaNumeric(s[i + 1..])
  }

  predicate IsChecksum(s: bytes) {
    || (AlphaNumeric(s) && 1 <= |s| <= 110)
    || exists i | 0 <= i <= 10 :: ColonAt(s, i)
  }

  /** An algorithm name of up to 10 characters, an optional colon, and 1 to 100 characters. */
  ghost predicate ChecksumPattern(s: bytes, algorithm: bytes, colon: bytes, digest: bytes) {
    && s == algorithm + colon + digest
    && AlphaNumeric(algorithm) && |algorithm| <= 10
    && (colon == [] || colon == [COLON])
    && AlphaNumeric(digest) && 1 <= |digest| <= 100
  }

  lemma AlphaNumericParts(a: bytes, d: bytes)
    requires AlphaNumeric(a) && AlphaNumeric(d)
    ensures AlphaNumeric(a + d)
  {
  }

  lemma PatternIsChecksum(s: bytes, a: bytes, c: bytes, d: bytes)
    requires ChecksumPattern(s, a, c, d)
    ensures IsChecksum(s)
  {
    if c == [] {
      AlphaNumericParts(a, d);
      assert s == a + d;
    } else {
      assert s[..|a|] == a && s[|a| + 1..] == d && s[|a|] == COLON;
      assert ColonAt(s, |a|);
    }
  }

  lemma PlainPattern(s: bytes, i: nat)
    requires AlphaNumeric(s) && i <= 10 && 1 <= |s| - i <= 100
    ensures ChecksumPattern(s, s[..i], [], s[i..])
  {
    assert s == s[..i] + [] + s[i..];
  }

  lemma ColonPattern(s: bytes, i: nat)
    requires ColonAt(s, i)
    ensures ChecksumPattern(s, s[..i], [COLON], s[i + 1..])
  {
    assert s == s[..i] + [s[i]] + s[i + 1..];
  }

  lemma ChecksumHasPattern(s: bytes) returns (a: bytes, c: bytes, d: bytes)
    requires IsChecksum(s)
    ensures ChecksumPattern(s, a, c, d)
  {
    if AlphaNumeric(s) && 1 <= |s| <= 110 {
      var i := if |s| <= 100 then 0 else 10;
      PlainPattern(s, i);
      a, c, d := s[..i], [], s[i..];
    } else {
      var i :| 0 <= i <= 10 && ColonAt(s, i);
      ColonPattern(s, i);
      a, c, d := s[..i], [COLON], s[i + 1..];
    }
  }

  /** The check is the regular expression of the source. */
  lemma ChecksumIsPattern(s: bytes)
    ensures IsChecksum(s) <==> exists a, c, d :: ChecksumPattern(s, a, c, d)
  {
    if IsChecksum(s) {
      var a, c, d := ChecksumHasPattern(s);
    }
    forall a, c, d | ChecksumPattern(s, a, c, d) ensures IsChecksum(s) {
      PatternIsChecksum(s, a, c, d);
    }
  }

  predicate ValidImage(image: bytes) {
    1 <= |image| <= MAX_IMAGE_LENGTH
  }

  predicate ValidArtifact(a: Artifact) {
    a.schema >= 1 && |a.owner| == ADDRESS_LENGTH && ValidImage(a.image) && IsChecksum(a.checksum)
  }

  predicate ValidMsg(m: Msg) {
    && m.schema.Some? && m.schema.value >= 1 && ValidImage(m.image)
    && (m.Create? ==> IsChecksum(m.checksum) && |m.owner| == ADDRESS_LENGTH)
  }

  /** A valid message, in the terms of the source's checks. */
  lemma ValidMsgExactly(m: Msg)
    ensures ValidMsg(m) <==>
            && m.schema.Some? && m.schema.value >= 1 && 1 <= |m.image| <= 255
            && (m.Create? ==> |m.owner| == 20 && exists a, c, d :: ChecksumPattern(m.checksum, a, c, d))
  {
    if m.Create? {
      ChecksumIsPattern(m.checksum);
    }
  }

  // ----- The bucket and its handlers -----

  type Artifacts = map<bytes, Artifact>

  /** Stored under their own image, and valid. */
  ghost predicate KeyedByImage(m: Artifacts) {
    forall k | k in m :: m[k].image == k && ValidArtifact(m[k])
  }

  /** What a delivery is answered. */
  function Answer(m: Artifacts, d: Delivery): Result {
    if !ValidMsg(d.msg) then BadMessage
    else match d.msg
         case Create(_, _, _, owner) => if owner in d.signers then Delivered else Unauthorized
         case Delete(_, image) =>
           if image !in m then NotFound else if m[image].owner in d.signers then Delivered else Unauthorized
  }

  function After(schema: nat, m: Artifacts, d: Delivery): Artifacts {
    if Answer(m, d) != Delivered then m
    else match d.msg
         case Create(_, image, checksum, owner) => m[image := Artifact(schema, image, checksum, owner)]
         case Delete(_, image) => m - {image}
  }

  /** Every answer, with the reason that is given for it. */
  lemma AnswersExactly(m: Artifacts, d: Delivery)
    ensures Answer(m, d) == BadMessage <==> !ValidMsg(d.msg)
    ensures Answer(m, d) == NotFound <==> ValidMsg(d.msg) && d.msg.Delete? && d.msg.image !in m
    ensures Answer(m, d) == Unauthorized <==>
            ValidMsg(d.msg) && if d.msg.Create? then d.msg.owner !in d.signers
                               else d.msg.image in m && m[d.msg.image].owner !in d.signers
    ensures Answer(m, d) == Delivered <==>
            ValidMsg(d.msg) && if d.msg.Create? then d.msg.owner in d.signers
                               else d.msg.image in m && m[d.msg.image].owner in d.signers
  {
  }

  /** What a delivery leaves: everything but the named image as it was. */
  lemma OthersUntouched(schema: nat, m: Artifacts, d: Delivery, image: bytes)
    requires image != d.msg.image || Answer(m, d) != Delivered
    ensures image in After(schema, m, d) <==> image in m
    ensures image in m ==> After(schema, m, d)[image] == m[image]
  {
  }

  class Bucket {
    var artifacts: Artifacts
    /** The current schema of the package, which the migration layer puts into records without one. */
    const schema: nat

    constructor (s: nat, m: Artifacts)
      ensures artifacts == m && schema == s
    {
      artifacts, schema := m, s;
    }

    /** Refuses an empty key and an invalid record. */
    method Put(image: bytes, m: Artifact) returns (ok: bool)
      modifies this
      ensures ok <==> image != [] && ValidArtifact(m.(schema := if m.schema == 0 then schema else m.schema))
      ensures artifacts == if ok
                           then old(artifacts)[image := m.(schema := if m.schema == 0 then schema else m.schema)]
                           else old(artifacts)
    {
      if image == [] {
        return false;
      }
      var record := if m.schema == 0 then m.(schema := schema) else m;
      if !ValidArtifact(record) {
        return false;
      }
      artifacts := artifacts[image := record];
      return true;
    }
  }

  class CreateArtifactHandler {
    const b: Bucket

    constructor (bucket: Bucket)
      ensures b == bucket
    {
      b := bucket;
    }

    method Validate(d: Delivery) returns (r: Result)
      requires d.msg.Create?
      ensures r == Answer(b.artifacts, d)
    {
      if !ValidMsg(d.msg) {
        return BadMessage;
      }
      if d.msg.owner !in d.signers {
        return Unauthorized;
      }
      return Delivered;
    }

    /** A message that passes validation is always stored, over whatever was there. */
    method Deliver(d: Delivery) returns (r: Result)
      requires d.msg.Create? && b.schema >= 1
      modifies b
      ensures r == Answer(old(b.artifacts), d)
      ensures b.artifacts == After(b.schema, old(b.artifacts), d)
    {
      r := Validate(d);
      if r != Delivered {
        return;
      }
      var artifact := Artifact(0, d.msg.image, d.msg.checksum, d.msg.owner);
      var stored := b.Put(d.msg.image, artifact);
      if !stored {
        return BadMessage;
      }
    }
  }

  class DeleteArtifactHandler {
    const b: Bucket

    constructor (bucket: Bucket)
      ensures b == bucket
    {
      b := bucket;
    }

    method Validate(d: Delivery) returns (r: Result)
      requires d.msg.Delete?
      ensures r == Answer(b.artifacts, d)
    {
      if !ValidMsg(d.msg) {
        return BadMessage;
      }
      if d.msg.image !in b.artifacts {
        return NotFound;
      }
      var a := b.artifacts[d.msg.image];
      if a.owner !in d.signers {
        return Unauthorized;
      }
      return Delivered;
    }

    method Deliver(d: Delivery) returns (r: Result)
      requires d.msg.Delete?
      modifies b
      ensures r == Answer(old(b.artifacts), d)
      ensures b.artifacts == After(b.schema, old(b.artifacts), d)
    {
      r := Validate(d);
      if r != Delivered {
        return;
      }
      b.artifacts := b.artifacts - {d.msg.image};
    }
  }

  // ----- Runs -----

  function Run(schema: nat, m: Artifacts, ds: seq<Delivery>): Artifacts
    decreases |ds|
  {
    if ds == [] then m else After(schema, Run(schema, m, ds[..|ds| - 1]), ds[|ds| - 1])
  }

  /** Delivery `j` of the run succeeds. */
  predicate Succeeds(schema: nat, m: Artifacts, ds: seq<Delivery>, j: nat)
    requires j < |ds|
  {
    Answer(Run(schema, m, ds[..j]), ds[j]) == Delivered
  }

  lemma {:induction false} RunKeepsKeys(schema: nat, m: Artifacts, ds: seq<Delivery>)
    requires schema >= 1 && KeyedByImage(m)
    ensures KeyedByImage(Run(schema, m, ds))
    decreases |ds|
  {
    if ds != [] {
      RunKeepsKeys(schema, m, ds[..|ds| - 1]);
    }
  }

  /** The image is present at the start, or created by delivery `j`. */
  predicate ListedAt(schema: nat, m: Artifacts, ds: seq<Delivery>, image: bytes, j: int)
    requires -1 <= j < |ds|
  {
    if j == -1 then image in m
    else ds[j].msg.Create? && ds[j].msg.image == image && Succeeds(schema, m, ds, j)
  }

  /** Delivery `k` deletes the image. */
  predicate DeletedAt(schema: nat, m: Artifacts, ds: seq<Delivery>, image: bytes, k: nat)
    requires k < |ds|
  {
    ds[k].msg.Delete? && ds[k].msg.image == image && Succeeds(schema, m, ds, k)
  }

  /** Listed at `j`, and no delivery after `j` deletes it. */
  ghost predicate ListedSince(schema: nat, m: Artifacts, ds: seq<Delivery>, image: bytes, j: int) {
    && -1 <= j < |ds|
    && ListedAt(schema, m, ds, image, j)
    && forall k | j < k < |ds| :: !DeletedAt(schema, m, ds, image, k)
  }

  lemma PrefixIsSame(schema: nat, m: Artifacts, ds: seq<Delivery>, n: nat, image: bytes)
    requires n <= |ds|
    ensures forall j | 0 <= j < n :: DeletedAt(schema, m, ds[..n], image, j) == DeletedAt(schema, m, ds, image, j)
    ensures forall j | -1 <= j < n :: ListedAt(schema, m, ds[..n], image, j) == ListedAt(schema, m, ds, image, j)
  {
    assert forall j | 0 <= j < n :: ds[..n][..j] == ds[..j];
  }

  /** A delivery that does not delete the image leaves it listed since the same point. */
  lemma StillListed(schema: nat, m: Artifacts, ds: seq<Delivery>, image: bytes, j: int)
    requires ds != [] && j < |ds| - 1
    ensures ListedSince(schema, m, ds, image, j) <==>
            ListedSince(schema, m, ds[..|ds| - 1], image, j) && !DeletedAt(schema, m, ds, image, |ds| - 1)
  {
    PrefixIsSame(schema, m, ds, |ds| - 1, image);
  }

  /** After any run an image is present exactly when it has been listed and not deleted since. */
  lemma {:induction false} PresentIsListed(schema: nat, m: Artifacts, ds: seq<Delivery>, image: bytes)
    ensures image in Run(schema, m, ds) <==> exists j :: ListedSince(schema, m, ds, image, j)
    decreases |ds|
  {
    if ds == [] {
      if image in m { assert ListedSince(schema, m, ds, image, -1); }
    } else {
      var n := |ds| - 1;
      PresentIsListed(schema, m, ds[..n], image);
      forall j | j < n
        ensures ListedSince(schema, m, ds, image, j) <==>
                ListedSince(schema, m, ds[..n], image, j) && !DeletedAt(schema, m, ds, image, n)
      {
        StillListed(schema, m, ds, image, j);
      }
      assert ListedSince(schema, m, ds, image, n) <==> ListedAt(schema, m, ds, image, n);
    }
  }

  /** Delivery `k` puts or removes the image. */
  predicate TouchedAt(schema: nat, m: Artifacts, ds: seq<Delivery>, image: bytes, k: nat)
    requires k < |ds|
  {
    ds[k].msg.image == image && Succeeds(schema, m, ds, k)
  }

  /**
   The record of an image is the one it was last listed with; so a second creation replaces checksum
   and owner, whoever the first owner was.
   */
  lemma {:induction false} RecordIsLatest(schema: nat, m: Artifacts, ds: seq<Delivery>, image: bytes, j: int)
    requires -1 <= j < |ds| && ListedAt(schema, m, ds, image, j)
    requires forall k | j < k < |ds| :: !TouchedAt(schema, m, ds, image, k)
    ensures image in Run(schema, m, ds)
    ensures Run(schema, m, ds)[image] ==
            if j == -1 then m[image] else Artifact(schema, image, ds[j].msg.checksum, ds[j].msg.owner)
    decreases |ds|
  {
    var n := |ds| - 1;
    if j < n {
      assert !TouchedAt(schema, m, ds, image, n);
      assert forall k | 0 <= k < n :: ds[..n][..k] == ds[..k];
      forall k | j < k < n ensures !TouchedAt(schema, m, ds[..n], image, k) {
        assert !TouchedAt(schema, m, ds, image, k);
      }
      RecordIsLatest(schema, m, ds[..n], image, j);
    }
  }

  /** Deletions without the signature of its owner leave a record alone, however many there are. */
  lemma {:induction false} StaysWithoutOwner(schema: nat, m: Artifacts, ds: seq<Delivery>, image: bytes)
    requires image in m
    requires forall d | d in ds && d.msg.image == image :: d.msg.Delete? && m[image].owner !in d.signers
    ensures image in Run(schema, m, ds) && Run(schema, m, ds)[image] == m[image]
    decreases |ds|
  {
    if ds != [] {
      assert ds[|ds| - 1] in ds;
      StaysWithoutOwner(schema, m, ds[..|ds| - 1], image);
    }
  }

  /** Exactly when a delivery changes or removes the record of an image. */
  predicate Changes(schema: nat, record: Artifact, image: bytes, d: Delivery) {
    && ValidMsg(d.msg) && d.msg.image == image
    && if d.msg.Create?
       then d.msg.owner in d.signers && record != Artifact(schema, image, d.msg.checksum, d.msg.owner)
       else record.owner in d.signers
  }

  ghost predicate Keeps(m: Artifacts, image: bytes, record: Artifact) {
    image in m && m[image] == record
  }

  /**
   A deletion needs the stored owner, but a creation only the owner it names. So a record is changed
   without its owner's signature exactly by a valid creation that is signed by the owner it names.
   */
  lemma ChangesExactlyWhen(schema: nat, m: Artifacts, image: bytes, d: Delivery)
    requires image in m
    ensures !Keeps(After(schema, m, d), image, m[image]) <==> Changes(schema, m[image], image, d)
    ensures !Keeps(After(schema, m, d), image, m[image]) && m[image].owner !in d.signers <==>
            && d.msg.Create? && ValidMsg(d.msg) && d.msg.image == image
            && d.msg.owner in d.signers && m[image].owner !in d.signers
  {
  }

  /** A record lasts through a whole run exactly when no delivery of it, taken by itself, changes it. */
  lemma {:induction false} LastsExactlyWhen(schema: nat, m: Artifacts, ds: seq<Delivery>, image: bytes)
    requires image in m
    ensures (forall n | 0 <= n <= |ds| :: Keeps(Run(schema, m, ds[..n]), image, m[image])) <==>
            forall d | d in ds :: !Changes(schema, m[image], image, d)
    decreases |ds|
  {
    if ds == [] {
      assert ds[..0] == [];
    } else {
      var k := |ds| - 1;
      var front, d := ds[..k], ds[k];
      assert ds == front + [d] && ds[..|ds|] == ds;
      LastsExactlyWhen(schema, m, front, image);
      assert forall n | 0 <= n <= k :: front[..n] == ds[..n];
      assert front[..k] == front;
      if Keeps(Run(schema, m, front), image, m[image]) {
        ChangesExactlyWhen(schema, Run(schema, m, front), image, d);
      }
    }
  }

  /** An image of owner `a` is created again by `b` alone, and then belongs to `b`. */
  lemma OwnerIsReplaced(a: bytes, b: bytes)
    requires |a| == |b| == ADDRESS_LENGTH && a != b
    ensures var image: bytes := [0x61];
            var first := Artifact(1, image, [0x31], a);
            var d := Delivery(Create(Some(1), image, [0x31], b), {b});
            && KeyedByImage(map[image := first])
            && first.owner !in d.signers && Answer(map[image := first], d) == Delivered
            && After(1, map[image := first], d) == map[image := first.(owner := b)]
  {
    assert IsChecksum([0x31]);
  }

  // ----- Admission -----

  /** The answer to a query by image: an error, or the models found; `None` if one does not decode. */
  datatype QueryResult = QueryError | Models(models: seq<Option<Artifact>>)

  datatype Pod = Pod(containers: seq<bytes>, initContainers: seq<bytes>)

  datatype Response = Allowed | Errored(code: int)

  const BAD_REQUEST := 400
  const NOT_FOUND := 404
  const INTERNAL_SERVER_ERROR := 500

  /** The status for one image: only the plain "not found" has a code of its own. */
  function Inspect(q: QueryResult): Response {
    match q
    case QueryError => Errored(INTERNAL_SERVER_ERROR)
    case Models(models) =>
      if models == [] then Errored(NOT_FOUND)
      else if forall i | 0 <= i < |models| :: models[i].Some? then Allowed
      else Errored(INTERNAL_SERVER_ERROR)
  }

  /** The first image that is refused decides. */
  function Verdict(source: bytes -> QueryResult, images: seq<bytes>): Response {
    if images == [] then Allowed
    else if Inspect(source(images[0])) != Allowed then Inspect(source(images[0]))
    else Verdict(source, images[1..])
  }

  lemma {:induction false} VerdictConcat(source: bytes -> QueryResult, a: seq<bytes>, b: seq<bytes>)
    ensures Verdict(source, a + b) ==
            if Verdict(source, a) == Allowed then Verdict(source, b) else Verdict(source, a)
  {
    if a == [] {
      assert a + b == b;
    } else {
      assert (a + b)[1..] == a[1..] + b;
      VerdictConcat(source, a[1..], b);
    }
  }

  lemma {:induction false} VerdictOfAll(source: bytes -> QueryResult, images: seq<bytes>)
    ensures Verdict(source, images) == Allowed <==> forall i | i in images :: Inspect(source(i)) == Allowed
  {
    if images != [] {
      assert images == [images[0]] + images[1..];
      VerdictOfAll(source, images[1..]);
    }
  }

  /**
   The verdict in terms of the queries alone: all images pass if every query succeeds, finds a model and
   every model decodes; otherwise the first that does not decides, and only "no model" is not found.
   */
  lemma VerdictExactly(source: bytes -> QueryResult, images: seq<bytes>)
    ensures Verdict(source, images) == Allowed <==>
            forall i | i in images :: source(i) != QueryError && source(i).models != [] && None !in source(i).models
    ensures Verdict(source, images) != Allowed ==>
            exists k | 0 <= k < |images| ::
              && (forall i | i in images[..k] :: source(i) != QueryError && source(i).models != [] && None !in source(i).models)
              && (source(images[k]) == QueryError || source(images[k]).models == [] || None in source(images[k]).models)
              && Verdict(source, images) == Errored(if source(images[k]) == Models([]) then 404 else 500)
  {
    VerdictOfAll(source, images);
    forall i ensures Inspect(source(i)) == Allowed <==>
                     source(i) != QueryError && source(i).models != [] && None !in source(i).models
    {
      PassesExactly(source(i));
    }
    if Verdict(source, images) != Allowed {
      var k := FirstRefused(source, images);
      PassesExactly(source(images[k]));
    }
  }

  /** The position of the first image that is refused. */
  lemma {:induction false} FirstRefused(source: bytes -> QueryResult, images: seq<bytes>) returns (k: nat)
    requires Verdict(source, images) != Allowed
    ensures k < |images| && Verdict(source, images) == Inspect(source(images[k])) != Allowed
    ensures forall i | i in images[..k] :: Inspect(source(i)) == Allowed
    decreases |images|
  {
    if Inspect(source(images[0])) != Allowed {
      k := 0;
    } else {
      k := FirstRefused(source, images[1..]);
      assert images[..k + 1] == [images[0]] + images[1..][..k];
      k := k + 1;
    }
  }

  lemma PassesExactly(q: QueryResult)
    ensures Inspect(q) == if q != QueryError && q.models != [] && None !in q.models then Allowed
                          else Errored(if q == Models([]) then 404 else 500)
  {
  }

  class PodValidator {
    const source: bytes -> QueryResult

    constructor (s: bytes -> QueryResult)
      ensures source == s
    {
      source := s;
    }

    /** The inner loop: every model must decode. */
    method Unmarshal(models: seq<Option<Artifact>>) returns (ok: bool, artfs: seq<Artifact>)
      ensures ok <==> forall i | 0 <= i < |models| :: models[i].Some?
      ensures ok ==> |artfs| == |models| && forall i | 0 <= i < |models| :: models[i] == Some(artfs[i])
    {
      artfs := [];
      for i := 0 to |models|
        invariant |artfs| == i && forall j | 0 <= j < i :: models[j] == Some(artfs[j])
      {
        if models[i].None? {
          return false, artfs;
        }
        artfs := artfs + [models[i].value];
      }
      return true, artfs;
    }

    method DoWithContainers(images: seq<bytes>) returns (r: Response)
      ensures r == Verdict(source, images)
      ensures r == Allowed <==>
              forall i | i in images :: source(i) != QueryError && source(i).models != [] && None !in source(i).models
    {
      VerdictExactly(source, images);
      for i := 0 to |images|
        invariant Verdict(source, images) == Verdict(source, images[i..])
      {
        var resp := source(images[i]);
        assert images[i..][1..] == images[i + 1..];
        if resp.QueryError? {
          return Errored(INTERNAL_SERVER_ERROR);
        }
        if |resp.models| == 0 {
          return Errored(NOT_FOUND);
        }
        var ok, artfs := Unmarshal(resp.models);
        if !ok {
          return Errored(INTERNAL_SERVER_ERROR);
        }
      }
      return Allowed;
    }

    /** `req` is `None` when the request does not decode to a pod. */
    method Handle(req: Option<Pod>) returns (r: Response)
      ensures r == match req
                   case None => Errored(BAD_REQUEST)
                   case Some(pod) => Verdict(source, pod.containers + pod.initContainers)
      ensures req == None ==> r == Errored(400)
      ensures req != None ==>
                var images := req.value.containers + req.value.initContainers;
                r == Allowed <==>
                forall i | i in images :: source(i) != QueryError && source(i).models != [] && None !in source(i).models
      ensures req != None && r != Allowed ==>
                var images := req.value.containers + req.value.initContainers;
                exists k | 0 <= k < |images| ::
                  && (forall i | i in images[..k] :: source(i) != QueryError && source(i).models != [] && None !in source(i).models)
                  && (source(images[k]) == QueryError || source(images[k]).models == [] || None in source(images[k]).models)
                  && r == Errored(if source(images[k]) == Models([]) then 404 else 500)
    {
      if req.None? {
        return Errored(BAD_REQUEST);
      }
      VerdictExactly(source, req.value.containers + req.value.initContainers);
      VerdictConcat(source, req.value.containers, req.value.initContainers);
      r := DoWithContainers(req.value.containers);
      if r != Allowed {
        return;
      }
      r := DoWithContainers(req.value.initContainers);
      if r != Allowed {
        return;
      }
      return Allowed;
    }
  }

  /** A query by exact key over the state `m`. */
  function QueryByImage(m: Artifacts): bytes -> QueryResult {
    (image: bytes) => Models(if image in m then [Some(m[image])] else [])
  }

  /**
   After any run of deliveries a pod is admitted exactly when every image of its containers and init
   containers has been listed and not deleted since; otherwise it is refused as not found.
   */
  lemma AdmittedIsListed(schema: nat, m: Artifacts, ds: seq<Delivery>, pod: Pod)
    ensures var images := pod.containers + pod.initContainers;
            Verdict(QueryByImage(Run(schema, m, ds)), images) ==
            if forall i | i in images :: exists j :: ListedSince(schema, m, ds, i, j)
            then Allowed else Errored(NOT_FOUND)
  {
    var images := pod.containers + pod.initContainers;
    forall i ensures i in Run(schema, m, ds) <==> exists j :: ListedSince(schema, m, ds, i, j) {
      PresentIsListed(schema, m, ds, i);
    }
    VerdictOfAll(QueryByImage(Run(schema, m, ds)), images);
    OnlyNotFound(Run(schema, m, ds), images);
  }

  lemma {:induction false} OnlyNotFound(m: Artifacts, images: seq<bytes>)
    ensures Verdict(QueryByImage(m), images) in {Allowed, Errored(NOT_FOUND)}
  {
    if images != [] {
      OnlyNotFound(m, images[1..]);
    }
  }
}
