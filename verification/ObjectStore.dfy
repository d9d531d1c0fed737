/** The S3 adapter, call by call, over a bucket whose calls may fail. */
module ObjectStore {
  import opened Common
  import opened EncryptedStream
  import opened StoragePaths
  import opened ObjectStoreSpec

  datatype Upload = Upload(key: string, parts: map<nat, Bytes>)

  datatype Reply<+T> = Found(value: T) | NotFound | CallFailed

  /**
   * The bucket. `faults` says which of the coming calls raise; a call that
   * raises has changed nothing. There are no objects with an empty key.
   */
  class Bucket {
    var objects: Objects
    var uploads: map<nat, Upload>
    var nextId: nat
    var faults: seq<bool>

    ghost predicate Valid()
      reads this
    {
      "" !in objects && forall id | id in uploads :: id < nextId && uploads[id].key != ""
    }

    ghost predicate Healthy()
      reads this
    {
      true !in faults
    }

    method Answered() returns (ok: bool)
      modifies this`faults
      ensures old(Healthy()) ==> ok && Healthy()
    {
      if faults == [] { return true; }
      ok := !faults[0];
      faults := faults[1..];
    }

    method HeadObject(key: string) returns (size: Reply<nat>)
      modifies this`faults
      ensures size.CallFailed? || size == if key in objects then Found(|objects[key]|) else NotFound
      ensures old(Healthy()) ==> Healthy() && !size.CallFailed?
    {
      var ok := Answered();
      return if !ok then CallFailed else if key in objects then Found(|objects[key]|) else NotFound;
    }

    method PutObject(key: string, body: Bytes) returns (ok: bool)
      requires Valid() && key != ""
      modifies this`faults, this`objects
      ensures Valid()
      ensures objects == if ok then old(objects)[key := body] else old(objects)
      ensures old(Healthy()) ==> ok && Healthy()
    {
      ok := Answered();
      if ok { objects := objects[key := body]; }
    }

    method CopyObject(source: string, dest: string) returns (ok: bool)
      requires Valid() && source in objects
      modifies this`faults, this`objects
      ensures Valid()
      ensures objects == if ok then old(objects)[dest := old(objects)[source]] else old(objects)
      ensures ok ==> dest != ""
      ensures old(Healthy()) ==> Healthy() && (dest != "" ==> ok)
    {
      ok := Answered();
      ok := ok && dest != "";
      if ok { objects := objects[dest := objects[source]]; }
    }

    method CreateMultipartUpload(key: string) returns (id: Option<nat>)
      requires Valid()
      modifies this`faults, this`uploads, this`nextId
      ensures Valid()
      ensures id.Some? ==>
                id.value == old(nextId) && uploads == old(uploads)[id.value := Upload(key, map[])] && key != ""
      ensures id.None? ==> uploads == old(uploads) && nextId == old(nextId)
      ensures old(Healthy()) ==> Healthy() && (key != "" ==> id.Some?)
    {
      var ok := Answered();
      if !ok || key == "" { return None; }
      id := Some(nextId);
      uploads := uploads[nextId := Upload(key, map[])];
      nextId := nextId + 1;
    }

    method UploadPart(id: nat, number: nat, body: Bytes) returns (ok: bool)
      requires Valid() && id in uploads
      modifies this`faults, this`uploads
      ensures Valid()
      ensures uploads == if ok
                         then old(uploads)[id := Upload(old(uploads)[id].key,
                                                        old(uploads)[id].parts[number := body])]
                         else old(uploads)
      ensures old(Healthy()) ==> ok && Healthy()
    {
      ok := Answered();
      if ok { uploads := uploads[id := Upload(uploads[id].key, uploads[id].parts[number := body])]; }
    }

    /** The bytes of `source` from `offset` to `end`, both included. */
    method UploadPartCopy(id: nat, number: nat, source: string, offset: nat, end: nat) returns (ok: bool)
      requires Valid() && id in uploads && source in objects && offset <= end < |objects[source]|
      modifies this`faults, this`uploads
      ensures Valid()
      ensures var range := objects[source][offset..end + 1];
              uploads == if ok
                         then old(uploads)[id := Upload(old(uploads)[id].key,
                                                        old(uploads)[id].parts[number := range])]
                         else old(uploads)
      ensures old(Healthy()) ==> ok && Healthy()
    {
      ok := UploadPart(id, number, objects[source][offset..end + 1]);
    }

    /** Completion replaces the object in one step. */
    method CompleteMultipartUpload(id: nat, parts: seq<Part>) returns (ok: bool)
      requires Valid() && id in uploads
      modifies this`faults, this`uploads, this`objects
      ensures Valid()
      ensures ok ==> Completable(old(uploads)[id].parts, parts)
      ensures objects == if ok then old(objects)[old(uploads)[id].key := Bodies(parts)] else old(objects)
      ensures uploads == if ok then old(uploads) - {id} else old(uploads)
      ensures old(Healthy()) ==> Healthy() && (Completable(old(uploads)[id].parts, parts) ==> ok)
    {
      ok := Answered();
      ok := ok && Completable(uploads[id].parts, parts);
      if ok {
        objects := objects[uploads[id].key := Bodies(parts)];
        uploads := uploads - {id};
      }
    }

    method AbortMultipartUpload(id: nat)
      requires Valid()
      modifies this`faults, this`uploads
      ensures Valid() && (uploads == old(uploads) || uploads == old(uploads) - {id})
      ensures old(Healthy()) ==> Healthy() && uploads == old(uploads) - {id}
    {
      var ok := Answered();
      if ok { uploads := uploads - {id}; }
    }

    method DeleteObjects(batch: seq<string>) returns (ok: bool)
      requires Valid()
      modifies this`faults, this`objects
      ensures Valid()
      ensures objects == if ok then old(objects) - KeySet(batch) else old(objects)
      ensures ok ==> |batch| <= DELETE_BATCH
      ensures old(Healthy()) ==> Healthy() && (|batch| <= DELETE_BATCH ==> ok)
    {
      ok := Answered();
      ok := ok && |batch| <= DELETE_BATCH;
      if ok { objects := objects - KeySet(batch); }
    }

    /** All pages of a listing. */
    method ListKeys(prefix: string) returns (keys: Option<seq<string>>)
      modifies this`faults
      ensures keys.Some? ==> Listing(keys.value, objects, prefix)
      ensures old(Healthy()) ==> Healthy() && keys.Some?
    {
      var ok := Answered();
      if !ok { return None; }
      var found, rest := [], Below(objects, prefix);
      while rest != {}
        invariant rest <= Below(objects, prefix)
        invariant forall k :: k in Below(objects, prefix) <==> k in found || k in rest
        invariant forall i | 0 <= i < |found| :: found[i] !in rest
        invariant forall i, j | 0 <= i < j < |found| :: found[i] != found[j]
      {
        var key :| key in rest;
        found, rest := found + [key], rest - {key};
      }
      return Some(found);
    }
  }

  datatype WriteResult = Written(size: nat) | InvalidPath | WriteFailed

  datatype CopyResult = Copied | SourceMissing | CopyFailed

  datatype Node = Node(name: string, isDir: bool, size: nat)

  datatype ListResult = Listed(nodes: seq<Node>) | DirectoryMissing | ListRefused | ListFailed

  datatype MoveResult = Done | PathMissing | PathRefused | MoveFailed

  predicate Hidden(name: string) {
    name != "" && name[0] == '.'
  }

  /** The entry of a directory a key below its prefix belongs to; a directory marker has no name. */
  function NodeAt(o: Objects, prefix: string, key: string): Node
    requires key in o && prefix <= key
  {
    var parts := Split(key[|prefix|..]);
    Node(parts[0], |parts| > 1, if |parts| > 1 then 0 else |o[key]|)
  }

  predicate Shown(n: Node) {
    n.name != "" && !Hidden(n.name)
  }

  function NodesOf(o: Objects, prefix: string, keys: set<string>): set<Node>
    requires keys <= Below(o, prefix)
  {
    set k | k in keys && Shown(NodeAt(o, prefix, k)) :: NodeAt(o, prefix, k)
  }

  function Nodes(o: Objects, prefix: string): set<Node> {
    NodesOf(o, prefix, Below(o, prefix))
  }

  /** The files shown are the objects whose key is the prefix and a name, with their lengths. */
  lemma FileNodes(o: Objects, prefix: string, name: string, size: nat)
    ensures Node(name, false, size) in Nodes(o, prefix) <==>
            name != "" && name[0] != '.' && SLASH !in name && prefix + name in o && size == |o[prefix + name]|
  {
    hide Split;
    if Node(name, false, size) in Nodes(o, prefix) {
      var k :| k in Below(o, prefix) && NodeAt(o, prefix, k) == Node(name, false, size);
      SplitFirst(k[|prefix|..]);
      assert k == prefix + name;
    }
    if name != "" && name[0] != '.' && SLASH !in name && prefix + name in o && size == |o[prefix + name]| {
      var k := prefix + name;
      assert k[|prefix|..] == name;
      SplitAtName(name, "");
      assert NodeAt(o, prefix, k) == Node(name, false, size);
    }
  }

  /** The directories shown are the names with something below them. */
  lemma DirectoryNodes(o: Objects, prefix: string, name: string, size: nat)
    ensures Node(name, true, size) in Nodes(o, prefix) <==>
            name != "" && name[0] != '.' && SLASH !in name && size == 0
            && exists k :: k in o && prefix + name + [SLASH] <= k
  {
    hide Split;
    if Node(name, true, size) in Nodes(o, prefix) {
      var k :| k in Below(o, prefix) && NodeAt(o, prefix, k) == Node(name, true, size);
      var s := k[|prefix|..];
      SplitFirst(s);
      assert Split(s)[0] in Split(s);
      assert k == prefix + name + [SLASH] + s[|name| + 1..];
    }
    if name != "" && name[0] != '.' && SLASH !in name && size == 0 {
      if k :| k in o && prefix + name + [SLASH] <= k {
        var rest := k[|prefix + name| + 1..];
        assert k[|prefix|..] == name + [SLASH] + rest;
        SplitAtName(name, rest);
        assert NodeAt(o, prefix, k) == Node(name, true, size);
      }
    }
  }

  /** What a listing of everything below the prefix has to show. */
  ghost predicate ListingShows(o: Objects, prefix: string, nodes: seq<Node>) {
    && (forall name, size :: Node(name, false, size) in nodes <==>
          && name != "" && name[0] != '.' && SLASH !in name
          && prefix + name in o && size == |o[prefix + name]|)
    && (forall name, size :: Node(name, true, size) in nodes <==>
          && name != "" && name[0] != '.' && SLASH !in name
          && size == 0 && exists k :: k in o && prefix + name + [SLASH] <= k)
  }

  lemma NodesShow(o: Objects, prefix: string, nodes: seq<Node>)
    requires forall n :: n in nodes <==> n in Nodes(o, prefix)
    ensures ListingShows(o, prefix, nodes)
  {
    hide Nodes;
    forall name: string, size: nat
      ensures Node(name, false, size) in nodes <==>
              && name != "" && name[0] != '.' && SLASH !in name
              && prefix + name in o && size == |o[prefix + name]|
      ensures Node(name, true, size) in nodes <==>
              && name != "" && name[0] != '.' && SLASH !in name
              && size == 0 && exists k :: k in o && prefix + name + [SLASH] <= k
    {
      FileNodes(o, prefix, name, size);
      DirectoryNodes(o, prefix, name, size);
    }
  }

  /** Parts the store holds for an upload. */
  ghost predicate Uploaded(stored: map<nat, Bytes>, parts: seq<Part>) {
    forall i | 0 <= i < |parts| :: parts[i].number in stored && stored[parts[i].number] == parts[i].body
  }

  lemma {:induction false} FlattenSnoc(chunks: seq<Bytes>, chunk: Bytes)
    ensures Flatten(chunks + [chunk]) == Flatten(chunks) + chunk
  {
    if chunks == [] {
      assert chunks + [chunk] == [chunk] && Flatten([chunk][1..]) == [];
    } else {
      FlattenSnoc(chunks[1..], chunk);
      assert (chunks + [chunk])[1..] == chunks[1..] + [chunk];
    }
  }

  lemma NothingYet()
    ensures PartsOf([], []) && Flatten([]) == [] && Numbered([])
  {
  }

  lemma NoPartsYet(stored: map<nat, Bytes>)
    ensures Uploaded(stored, []) && Numbered([])
  {
  }

  lemma UploadedSnoc(stored: map<nat, Bytes>, parts: seq<Part>, body: Bytes)
    requires Numbered(parts) && Uploaded(stored, parts)
    ensures Numbered(parts + [Part(|parts| + 1, body)])
    ensures Uploaded(stored[|parts| + 1 := body], parts + [Part(|parts| + 1, body)])
  {
  }

  /** Full parts uploaded so far, and the bytes they hold. */
  ghost predicate PartsOf(parts: seq<Part>, body: Bytes) {
    Numbered(parts) && Full(parts) && Bodies(parts) == body
  }

  /** One more part: full, the parts stay full; shorter, they are the whole object. */
  lemma NextPart(parts: seq<Part>, done: Bytes, body: Bytes)
    requires PartsOf(parts, done)
    ensures var more := parts + [Part(|parts| + 1, body)];
            && (|body| == PART_SIZE ==> PartsOf(more, done + body))
            && (0 < |body| <= PART_SIZE ==> Partition(more, done + body))
  {
    var more := parts + [Part(|parts| + 1, body)];
    assert more[..|more| - 1] == parts;
  }

  lemma NoMoreParts(parts: seq<Part>, done: Bytes)
    requires PartsOf(parts, done)
    ensures |done| == PART_SIZE * |parts|
    ensures parts != [] ==> Partition(parts, done)
  {
    FullLength(parts);
    if parts != [] {
      assert parts[|parts| - 1] in parts;
    }
  }

  lemma PartitionCompletes(stored: map<nat, Bytes>, parts: seq<Part>, body: Bytes)
    requires Partition(parts, body) && Uploaded(stored, parts)
    ensures Completable(stored, parts) && Bodies(parts) == body
  {
    hide Bodies;
    forall i | 0 <= i < |parts| - 1 ensures |parts[i].body| >= MIN_PART_SIZE {
      assert parts[..|parts| - 1][i] == parts[i];
    }
  }

  class S3StorageAdapter {
    const rootPrefix: string
    const bucket: Bucket

    constructor (rootPrefix: string, bucket: Bucket)
      requires RootPrefix(rootPrefix)
      ensures this.rootPrefix == rootPrefix && this.bucket == bucket
    {
      this.rootPrefix, this.bucket := rootPrefix, bucket;
    }

    /** The upload of a write, if it has begun: the parts it lists are the parts the store holds. */
    ghost predicate InProgress(upload: Option<nat>, key: string, parts: seq<Part>, before: map<nat, Upload>, id: nat)
      reads bucket
    {
      && id !in before
      && (upload.None? ==> bucket.uploads == before && bucket.nextId == id && parts == [])
      && (upload.Some? ==>
            && upload.value == id && id in bucket.uploads && bucket.uploads - {id} == before
            && bucket.uploads[id].key == key && Numbered(parts) && Uploaded(bucket.uploads[id].parts, parts))
    }

    method UploadBufferPart(id: nat, body: Bytes, parts: seq<Part>) returns (ok: bool, more: seq<Part>)
      requires bucket.Valid() && id in bucket.uploads && Numbered(parts) && Uploaded(bucket.uploads[id].parts, parts)
      modifies bucket`faults, bucket`uploads
      ensures bucket.Valid() && id in bucket.uploads && bucket.uploads - {id} == old(bucket.uploads) - {id}
      ensures bucket.uploads[id].key == old(bucket.uploads)[id].key
      ensures more == if ok then parts + [Part(|parts| + 1, body)] else parts
      ensures Numbered(more) && Uploaded(bucket.uploads[id].parts, more)
      ensures old(bucket.Healthy()) ==> ok && bucket.Healthy()
    {
      UploadedSnoc(bucket.uploads[id].parts, parts, body);
      ok := bucket.UploadPart(id, |parts| + 1, body);
      more := if ok then parts + [Part(|parts| + 1, body)] else parts;
    }

    /** Begin the upload unless it has begun. */
    method StartMultipart(key: string, upload0: Option<nat>, parts: seq<Part>, ghost before: map<nat, Upload>,
                          ghost id: nat)
      returns (upload: Option<nat>)
      requires bucket.Valid() && key != "" && InProgress(upload0, key, parts, before, id)
      modifies bucket`faults, bucket`uploads, bucket`nextId
      ensures bucket.Valid() && (old(bucket.Healthy()) ==> upload.Some? && bucket.Healthy())
      ensures if upload.Some? then InProgress(upload, key, parts, before, id) else bucket.uploads == before
    {
      hide Numbered, Uploaded;
      upload := upload0;
      if upload.None? {
        upload := bucket.CreateMultipartUpload(key);
        if upload.Some? {
          NoPartsYet(bucket.uploads[id].parts);
          assert bucket.uploads - {id} == before;
        }
      }
    }

    /** While the buffer holds a full part, upload it; the upload begins with the first one. */
    method UploadFullParts(key: string, buffer0: Bytes, parts0: seq<Part>, upload0: Option<nat>,
                           ghost before: map<nat, Upload>, ghost id: nat, ghost done0: Bytes)
      returns (ok: bool, buffer: Bytes, parts: seq<Part>, upload: Option<nat>, ghost done: Bytes)
      requires bucket.Valid() && key != "" && InProgress(upload0, key, parts0, before, id) && PartsOf(parts0, done0)
      requires upload0.None? <==> parts0 == []
      modifies bucket`faults, bucket`uploads, bucket`nextId
      ensures bucket.Valid() && (old(bucket.Healthy()) ==> ok && bucket.Healthy())
      ensures bucket.uploads - {id} == before
      ensures ok ==>
                InProgress(upload, key, parts, before, id) && PartsOf(parts, done) && (upload.None? <==> parts == [])
      ensures ok ==> done + buffer == done0 + buffer0 && |buffer| < PART_SIZE
    {
      hide Bodies, PartsOf, Numbered, Uploaded;
      buffer, parts, upload, done := buffer0, parts0, upload0, done0;
      while |buffer| >= PART_SIZE
        invariant bucket.Valid() && (old(bucket.Healthy()) ==> bucket.Healthy())
        invariant InProgress(upload, key, parts, before, id) && PartsOf(parts, done)
        invariant done + buffer == done0 + buffer0 && (upload.None? <==> parts == [])
      {
        upload := StartMultipart(key, upload, parts, before, id);
        if upload.None? { return false, buffer, parts, upload, done; }
        var part := buffer[..PART_SIZE];
        NextPart(parts, done, part);
        ok, parts := UploadBufferPart(upload.value, part, parts);
        if !ok { bucket.AbortMultipartUpload(upload.value); return false, buffer, parts, upload, done; }
        assert done + buffer == (done + part) + buffer[PART_SIZE..];
        done, buffer := done + part, buffer[PART_SIZE..];
      }
      ok := true;
    }

    /** Put the whole buffer, or upload what is left and complete. */
    method FinishWrite(key: string, buffer: Bytes, parts0: seq<Part>, upload: Option<nat>,
                       ghost before: map<nat, Upload>, ghost id: nat, ghost done: Bytes)
      returns (ok: bool, parts: seq<Part>)
      requires bucket.Valid() && key != "" && InProgress(upload, key, parts0, before, id) && PartsOf(parts0, done)
      requires (upload.None? <==> parts0 == []) && |buffer| < PART_SIZE
      modifies bucket
      ensures bucket.Valid() && (old(bucket.Healthy()) ==> ok && bucket.Healthy())
      ensures bucket.objects == if ok then old(bucket.objects)[key := done + buffer] else old(bucket.objects)
      ensures bucket.uploads - {id} == before && (ok || old(bucket.Healthy()) ==> bucket.uploads == before)
      ensures ok ==> if |done + buffer| < PART_SIZE then parts == [] else Partition(parts, done + buffer)
    {
      hide Bodies, PartsOf, Partition, Completable, Numbered, Uploaded;
      parts := parts0;
      NoMoreParts(parts, done);
      if upload.None? {
        assert done + buffer == buffer;
        ok := bucket.PutObject(key, buffer);
        return ok, parts;
      }
      if buffer != [] {
        NextPart(parts, done, buffer);
        ok, parts := UploadBufferPart(upload.value, buffer, parts);
        if !ok { bucket.AbortMultipartUpload(upload.value); return false, parts; }
      } else {
        assert done + buffer == done;
      }
      PartitionCompletes(bucket.uploads[id].parts, parts, done + buffer);
      ok := bucket.CompleteMultipartUpload(upload.value, parts);
      if !ok { bucket.AbortMultipartUpload(upload.value); }
    }

    /**
     * Write a stream, in parts of eight mebibytes once it reaches one. Whatever
     * the chunks, the stored object is their concatenation; a write that fails,
     * or whose stream breaks off, leaves every object as it was and at most its
     * own unfinished upload behind.
     */
    method Write(path: string, data: seq<Bytes>, breaksOff: bool) returns (r: WriteResult, parts: seq<Part>)
      requires bucket.Valid()
      modifies bucket
      ensures bucket.Valid()
      ensures var key := ObjectKey(rootPrefix, path);
              r.InvalidPath? <==> key.None? || key.value == "" || key.value[|key.value| - 1] == SLASH
      ensures r.InvalidPath? ==> bucket.objects == old(bucket.objects) && bucket.uploads == old(bucket.uploads)
      ensures r.Written? ==> !breaksOff && r.size == |Flatten(data)|
      ensures r.Written? ==> bucket.objects == old(bucket.objects)[ObjectKey(rootPrefix, path).value := Flatten(data)]
      ensures r.Written? ==> bucket.uploads == old(bucket.uploads)
      ensures r.Written? ==> if |Flatten(data)| < PART_SIZE then parts == [] else Partition(parts, Flatten(data))
      ensures r.WriteFailed? ==> bucket.objects == old(bucket.objects)
      ensures r.WriteFailed? ==> bucket.uploads - {old(bucket.nextId)} == old(bucket.uploads)
      ensures old(bucket.Healthy()) && !breaksOff ==> !r.WriteFailed?
      ensures old(bucket.Healthy()) ==> bucket.Healthy() && bucket.uploads == old(bucket.uploads)
    {
      hide Bodies, Flatten, PartsOf, Partition, Completable, Numbered, Uploaded, ObjectKey;
      parts := [];
      var safe := ObjectKey(rootPrefix, path);
      if safe.None? || safe.value == "" || safe.value[|safe.value| - 1] == SLASH { return InvalidPath, parts; }
      var key := safe.value;
      var written, buffer, upload: Option<nat> := 0, [], None;
      ghost var before, id := bucket.uploads, bucket.nextId;
      ghost var done: Bytes := [];
      NothingYet();
      for i := 0 to |data|
        invariant bucket.Valid() && bucket.objects == old(bucket.objects)
        invariant old(bucket.Healthy()) ==> bucket.Healthy()
        invariant InProgress(upload, key, parts, before, id) && PartsOf(parts, done)
        invariant done + buffer == Flatten(data[..i]) && written == |done| + |buffer| && |buffer| < PART_SIZE
        invariant upload.None? <==> parts == []
      {
        FlattenSnoc(data[..i], data[i]);
        assert data[..i + 1] == data[..i] + [data[i]];
        assert done + (buffer + data[i]) == (done + buffer) + data[i];
        written := written + |data[i]|;
        var ok;
        ok, buffer, parts, upload, done := UploadFullParts(key, buffer + data[i], parts, upload, before, id, done);
        if !ok { return WriteFailed, parts; }
      }
      assert data[..|data|] == data;
      if breaksOff {
        if upload.Some? { bucket.AbortMultipartUpload(upload.value); }
        return WriteFailed, parts;
      }
      var ok;
      ok, parts := FinishWrite(key, buffer, parts, upload, before, id, done);
      return if ok then Written(written) else WriteFailed, parts;
    }

    /**
     * Copy one object, by ranges when it is five gibibytes or more. The copy has
     * the source's bytes; the ranges used partition them.
     */
    method CopyObject(source: string, dest: string) returns (r: CopyResult, parts: seq<Part>)
      requires bucket.Valid()
      modifies bucket
      ensures bucket.Valid()
      ensures r.SourceMissing? ==> source !in old(bucket.objects)
      ensures r.Copied? ==> source in old(bucket.objects) && dest != ""
      ensures bucket.objects ==
              if r.Copied? then old(bucket.objects)[dest := old(bucket.objects)[source]] else old(bucket.objects)
      ensures r.Copied? ==> bucket.uploads == old(bucket.uploads)
      ensures r.Copied? ==> if |old(bucket.objects)[source]| < COPY_MAX then parts == []
                            else Partition(parts, old(bucket.objects)[source])
      ensures bucket.uploads - {old(bucket.nextId)} == old(bucket.uploads)
      ensures old(bucket.Healthy()) ==> bucket.Healthy() && bucket.uploads == old(bucket.uploads)
      ensures old(bucket.Healthy()) && dest != "" ==> !r.CopyFailed?
    {
      hide Bodies, PartsOf, Partition, Completable, Numbered, Uploaded;
      parts := [];
      var head := bucket.HeadObject(source);
      if head.NotFound? { return SourceMissing, parts; }
      if head.CallFailed? { return CopyFailed, parts; }
      var size := head.value;
      if size < COPY_MAX {
        var ok := bucket.CopyObject(source, dest);
        return if ok then Copied else CopyFailed, parts;
      }
      r, parts := CopyByRanges(source, dest, size);
    }

    /** The loop over the ranges of a large object, within one upload. */
    method CopyByRanges(source: string, dest: string, size: nat) returns (r: CopyResult, parts: seq<Part>)
      requires bucket.Valid() && source in bucket.objects && |bucket.objects[source]| == size > 0
      modifies bucket
      ensures bucket.Valid() && r != SourceMissing
      ensures r.Copied? ==>
                dest != "" && bucket.uploads == old(bucket.uploads) && Partition(parts, old(bucket.objects)[source])
      ensures bucket.objects ==
              if r.Copied? then old(bucket.objects)[dest := old(bucket.objects)[source]] else old(bucket.objects)
      ensures bucket.uploads - {old(bucket.nextId)} == old(bucket.uploads)
      ensures old(bucket.Healthy()) ==> bucket.Healthy() && bucket.uploads == old(bucket.uploads)
      ensures old(bucket.Healthy()) && dest != "" ==> r.Copied?
    {
      hide Bodies, PartsOf, Partition, Completable, Numbered, Uploaded;
      parts := [];
      var upload := bucket.CreateMultipartUpload(dest);
      if upload.None? { return CopyFailed, parts; }
      ghost var body, before, id := bucket.objects[source], old(bucket.uploads), old(bucket.nextId);
      NothingYet();
      NoPartsYet(bucket.uploads[id].parts);
      var offset := 0;
      while offset < size
        invariant bucket.Valid() && bucket.objects == old(bucket.objects)
        invariant old(bucket.Healthy()) ==> bucket.Healthy()
        invariant InProgress(upload, dest, parts, before, id)
        invariant 0 <= offset <= size
        invariant offset < size ==> PartsOf(parts, body[..offset])
        invariant offset == size ==> Partition(parts, body)
      {
        var end := Min(offset + PART_SIZE, size) - 1;
        ghost var range := body[offset..end + 1];
        NextPart(parts, body[..offset], range);
        UploadedSnoc(bucket.uploads[id].parts, parts, range);
        var ok := bucket.UploadPartCopy(upload.value, |parts| + 1, source, offset, end);
        if !ok { bucket.AbortMultipartUpload(upload.value); return CopyFailed, parts; }
        parts := parts + [Part(|parts| + 1, bucket.objects[source][offset..end + 1])];
        assert body[..end + 1] == body[..offset] + range;
        offset := end + 1;
        assert offset == size ==> body[..offset] == body;
      }
      PartitionCompletes(bucket.uploads[id].parts, parts, body);
      var ok := bucket.CompleteMultipartUpload(upload.value, parts);
      if !ok { bucket.AbortMultipartUpload(upload.value); }
      return if ok then Copied else CopyFailed, parts;
    }

    /** `_head_exists`: the empty key is never asked for. */
    method HeadExists(key: string) returns (found: Reply<bool>)
      requires bucket.Valid()
      modifies bucket`faults
      ensures bucket.Valid() && (found.CallFailed? || found == Found(key in bucket.objects))
      ensures old(bucket.Healthy()) ==> bucket.Healthy() && found.Found?
    {
      if key == "" { return Found(false); }
      var head := bucket.HeadObject(key);
      return if head.CallFailed? then CallFailed else Found(head.Found?);
    }

    /** Delete keys a thousand at a time; never a batch the store refuses. */
    method DeleteInBatches(keys: seq<string>) returns (ok: bool, ghost deleted: set<string>)
      requires bucket.Valid()
      modifies bucket`faults, bucket`objects
      ensures bucket.Valid() && bucket.objects == old(bucket.objects) - deleted && deleted <= KeySet(keys)
      ensures ok ==> deleted == KeySet(keys)
      ensures old(bucket.Healthy()) ==> ok && bucket.Healthy()
    {
      deleted := {};
      var offset := 0;
      while offset < |keys|
        invariant bucket.Valid() && 0 <= offset
        invariant bucket.objects == old(bucket.objects) - deleted && deleted == KeySet(keys[..Min(offset, |keys|)])
        invariant old(bucket.Healthy()) ==> bucket.Healthy()
      {
        var end := Min(offset + DELETE_BATCH, |keys|);
        ok := bucket.DeleteObjects(keys[offset..end]);
        if !ok { return false, deleted; }
        assert keys[..end] == keys[..offset] + keys[offset..end];
        deleted := deleted + KeySet(keys[offset..end]);
        offset := offset + DELETE_BATCH;
      }
      assert keys[..|keys|] == keys;
      ok := true;
    }

    /** Copy each key to its place under the new prefix, one after the other. */
    method CopyKeys(keys: seq<string>, from: string, to: string) returns (ok: bool, ghost copied: seq<string>)
      requires bucket.Valid() && forall k | k in keys :: k in bucket.objects && from <= k
      modifies bucket
      ensures bucket.Valid() && copied <= keys && (forall k | k in copied :: k in keys)
      ensures bucket.objects == CopyAll(old(bucket.objects), copied, from, to)
      ensures ok ==> copied == keys
      ensures old(bucket.Healthy()) ==> bucket.Healthy() && (to != "" ==> ok)
    {
      hide Partition;
      for i := 0 to |keys|
        invariant bucket.Valid() && forall k | k in keys[..i] :: k in keys
        invariant bucket.objects == CopyAll(old(bucket.objects), keys[..i], from, to)
        invariant old(bucket.Healthy()) ==> bucket.Healthy()
      {
        var source := keys[i];
        assert source in keys && keys[..i + 1][..i] == keys[..i];
        var r, _ := CopyObject(source, Dest(from, to, source));
        if !r.Copied? { return false, keys[..i]; }
      }
      assert keys[..|keys|] == keys;
      return true, keys;
    }

    /**
     * Rename an object if there is one at the key, otherwise everything below
     * it. `copied` and `deleted` say how far a directory rename got.
     */
    method Rename(oldPath: string, newPath: string)
      returns (r: MoveResult, ghost copied: seq<string>, ghost deleted: set<string>)
      requires bucket.Valid()
      modifies bucket
      ensures bucket.Valid()
      ensures r.PathRefused? <==> ObjectKey(rootPrefix, oldPath).None? || ObjectKey(rootPrefix, newPath).None?
      ensures r.PathRefused? ==> bucket.objects == old(bucket.objects)
      ensures !r.PathRefused? ==>
                var a, b := ObjectKey(rootPrefix, oldPath).value, ObjectKey(rootPrefix, newPath).value;
                RenameOutcome(r, old(bucket.objects), bucket.objects, a, b, copied, deleted)
      ensures old(bucket.Healthy()) && ObjectKey(rootPrefix, newPath) != Some("") ==> !r.MoveFailed?
    {
      hide ObjectKey, Moved, Partition, CopyAll;
      copied, deleted := [], {};
      var safeOld, safeNew := ObjectKey(rootPrefix, oldPath), ObjectKey(rootPrefix, newPath);
      if safeOld.None? || safeNew.None? { return PathRefused, copied, deleted; }
      var oldKey, newKey := safeOld.value, safeNew.value;
      ghost var o := bucket.objects;
      NothingCopied(o, Prefix(oldKey), Prefix(newKey));
      var single := HeadExists(oldKey);
      if single.CallFailed? { return MoveFailed, copied, deleted; }
      if single.value {
        var c, _ := CopyObject(oldKey, newKey);
        if !c.Copied? { return MoveFailed, copied, deleted; }
        var ok := bucket.DeleteObjects([oldKey]);
        assert KeySet([oldKey]) == {oldKey};
        return if ok then Done else MoveFailed, copied, deleted;
      }
      var keys := bucket.ListKeys(Prefix(oldKey));
      if keys.None? { return MoveFailed, copied, deleted; }
      assert KeySet(keys.value) == Below(o, Prefix(oldKey));
      if keys.value == [] { return PathMissing, copied, deleted; }
      assert keys.value[0] in Below(o, Prefix(oldKey));
      var ok;
      ok, copied := CopyKeys(keys.value, Prefix(oldKey), Prefix(newKey));
      if !ok {
        assert bucket.objects == CopyAll(o, copied, Prefix(oldKey), Prefix(newKey)) - deleted;
        return MoveFailed, copied, deleted;
      }
      ok, deleted := DeleteInBatches(keys.value);
      if NoOverlap(o, Prefix(oldKey), Prefix(newKey)) {
        CopyThenDeleteMoves(o, keys.value, Prefix(oldKey), Prefix(newKey));
      }
      return if ok then Done else MoveFailed, copied, deleted;
    }

    lemma NothingCopied(o: Objects, from: string, to: string)
      ensures CopyAll(o, [], from, to) - {} == o
    {
    }

    /** The object in chunks of at most 64 KiB, none empty. */
    method Read(path: string) returns (r: Reply<seq<Bytes>>)
      requires bucket.Valid()
      modifies bucket`faults
      ensures bucket.Valid()
      ensures r.Found? ==> ObjectKey(rootPrefix, path).Some? && ObjectKey(rootPrefix, path).value in bucket.objects
                           && Flatten(r.value) == bucket.objects[ObjectKey(rootPrefix, path).value]
                           && forall c | c in r.value :: 0 < |c| <= READ_CHUNK_SIZE
      ensures r.NotFound? ==> ObjectKey(rootPrefix, path).Some? && ObjectKey(rootPrefix, path).value !in bucket.objects
      ensures old(bucket.Healthy()) ==> bucket.Healthy() && (ObjectKey(rootPrefix, path).Some? ==> !r.CallFailed?)
    {
      hide ObjectKey, Flatten;
      var safe := ObjectKey(rootPrefix, path);
      if safe.None? { return CallFailed; }
      var key := safe.value;
      if key == "" { return NotFound; }
      var head := bucket.HeadObject(key);
      if head.NotFound? { return NotFound; }
      if head.CallFailed? { return CallFailed; }
      var body := bucket.objects[key];
      var chunks: seq<Bytes>, offset := [], 0;
      NothingYet();
      while offset < |body|
        invariant 0 <= offset <= |body| && Flatten(chunks) == body[..offset]
        invariant old(bucket.Healthy()) ==> bucket.Healthy()
        invariant forall c | c in chunks :: 0 < |c| <= READ_CHUNK_SIZE
      {
        var chunk := body[offset..Min(offset + READ_CHUNK_SIZE, |body|)];
        FlattenSnoc(chunks, chunk);
        assert body[..offset + |chunk|] == body[..offset] + chunk;
        chunks, offset := chunks + [chunk], offset + |chunk|;
      }
      assert body[..|body|] == body;
      return Found(chunks);
    }

    /** The entries of a directory, each once, directories with their names only. */
    method List(path: string) returns (r: ListResult)
      requires bucket.Valid()
      modifies bucket`faults
      ensures r.ListRefused? <==> ObjectKey(rootPrefix, path).None?
      ensures r.Listed? || r.DirectoryMissing? ==>
                var below := Below(bucket.objects, Prefix(ObjectKey(rootPrefix, path).value));
                r.DirectoryMissing? <==> below == {} && exists c | c in Strip(path) :: c != SLASH
      ensures r.Listed? ==>
                var shown := Nodes(bucket.objects, Prefix(ObjectKey(rootPrefix, path).value));
                && (forall n :: n in r.nodes <==> n in shown)
                && (forall i, j | 0 <= i < j < |r.nodes| :: r.nodes[i] != r.nodes[j])
      ensures r.Listed? ==> ListingShows(bucket.objects, Prefix(ObjectKey(rootPrefix, path).value), r.nodes)
      ensures bucket.Valid() && (old(bucket.Healthy()) ==> bucket.Healthy() && !r.ListFailed?)
    {
      hide ObjectKey, Strip, NodeAt, ListingShows;
      var safe := ObjectKey(rootPrefix, path);
      if safe.None? { return ListRefused; }
      var prefix := Prefix(safe.value);
      var listed := bucket.ListKeys(prefix);
      if listed.None? { return ListFailed; }
      var keys := listed.value;
      assert KeySet(keys) == Below(bucket.objects, prefix);
      if keys == [] && exists c | c in Strip(path) :: c != SLASH { return DirectoryMissing; }
      assert keys != [] ==> keys[0] in Below(bucket.objects, prefix);
      var nodes: seq<Node> := [];
      for i := 0 to |keys|
        invariant bucket.Valid() && (old(bucket.Healthy()) ==> bucket.Healthy())
        invariant KeySet(keys[..i]) <= Below(bucket.objects, prefix)
        invariant forall n :: n in nodes <==> n in NodesOf(bucket.objects, prefix, KeySet(keys[..i]))
        invariant forall a, b | 0 <= a < b < |nodes| :: nodes[a] != nodes[b]
      {
        assert KeySet(keys[..i + 1]) == KeySet(keys[..i]) + {keys[i]};
        assert keys[i] in KeySet(keys);
        var node := NodeAt(bucket.objects, prefix, keys[i]);
        if Shown(node) && node !in nodes { nodes := nodes + [node]; }
      }
      assert keys[..|keys|] == keys;
      NodesShow(bucket.objects, prefix, nodes);
      return Listed(nodes);
    }

    /** Put an empty marker for the directory and for each one above it, from the top; `made` of them were put. */
    method Mkdir(path: string) returns (r: MoveResult, ghost made: nat)
      requires bucket.Valid()
      modifies bucket`faults, bucket`objects
      ensures bucket.Valid()
      ensures SafeLogicalKey(path).None? ==> r.PathRefused? && bucket.objects == old(bucket.objects)
      ensures SafeLogicalKey(path) == Some("") ==> r.Done? && bucket.objects == old(bucket.objects)
      ensures !r.PathMissing?
      ensures SafeLogicalKey(path).Some? && SafeLogicalKey(path).value != "" ==>
                var parts := Split(SafeLogicalKey(path).value);
                && made <= |parts|
                && bucket.objects == old(bucket.objects) + EmptyObjects(MarkerKeys(rootPrefix, parts, made))
                && (r.Done? <==> made == |parts|)
                && (made < |parts| && MarkerAt(rootPrefix, parts, made).None? ==> r.PathRefused?)
                && (made < |parts| && r.PathRefused? ==> MarkerAt(rootPrefix, parts, made).None?)
                && (old(bucket.Healthy()) && r.MoveFailed? ==> MarkerAt(rootPrefix, parts, made) == Some(""))
    {
      hide SafeLogicalKey, MarkerAt, Split, Join;
      made := 0;
      var logical := SafeLogicalKey(path);
      if logical.None? { return PathRefused, made; }
      if logical.value == "" { return Done, made; }
      var parts := Split(logical.value);
      NoMarkers(bucket.objects, rootPrefix, parts);
      for index := 0 to |parts|
        invariant bucket.Valid() && (old(bucket.Healthy()) ==> bucket.Healthy())
        invariant bucket.objects == old(bucket.objects) + EmptyObjects(MarkerKeys(rootPrefix, parts, index))
      {
        var marker := MarkerAt(rootPrefix, parts, index);
        if marker.None? { return PathRefused, index; }
        if marker.value == "" { return MoveFailed, index; }
        var ok := bucket.PutObject(marker.value, []);
        if !ok { return MoveFailed, index; }
        OneMoreMarker(old(bucket.objects), rootPrefix, parts, index);
      }
      return Done, |parts|;
    }

    /** Delete an object and everything below its key; not what merely starts with the same name. */
    method Delete(path: string) returns (r: MoveResult)
      requires bucket.Valid()
      modifies bucket`faults, bucket`objects
      ensures bucket.Valid()
      ensures var key := ObjectKey(rootPrefix, path);
              r.PathRefused? <==> key.None? || key.value == ""
      ensures r.PathRefused? || r.PathMissing? ==> bucket.objects == old(bucket.objects)
      ensures !r.PathRefused? ==>
                var key := ObjectKey(rootPrefix, path).value;
                var doomed := {key} + Below(old(bucket.objects), Prefix(key));
                && (r.Done? ==> bucket.objects == old(bucket.objects) - doomed)
                && (r.MoveFailed? ==> exists gone | gone <= doomed :: bucket.objects == old(bucket.objects) - gone)
                && (r.PathMissing? ==> doomed !! old(bucket.objects).Keys)
                && (r.Done? ==> !(doomed !! old(bucket.objects).Keys))
      ensures old(bucket.Healthy()) ==> !r.MoveFailed?
    {
      var safe := ObjectKey(rootPrefix, path);
      if safe.None? { return PathRefused; }
      var key := safe.value;
      if key == "" { return PathRefused; }
      ghost var o := bucket.objects;
      ghost var doomed := {key} + Below(o, Prefix(key));
      assert o - {} == o;
      var single := HeadExists(key);
      if single.CallFailed? { return MoveFailed; }
      var below := bucket.ListKeys(Prefix(key));
      if below.None? { return MoveFailed; }
      assert KeySet(below.value) == Below(o, Prefix(key));
      var keys := below.value;
      if single.value && key !in keys { keys := [key] + keys; }
      assert KeySet(keys) == if key in o then doomed else Below(o, Prefix(key));
      if keys == [] { return PathMissing; }
      assert keys[0] in o && keys[0] in KeySet(keys);
      ghost var deleted;
      var ok;
      ok, deleted := DeleteInBatches(keys);
      return if ok then Done else MoveFailed;
    }
  }

  /** The marker key of the first i + 1 segments; the joined segments are normalized once more. */
  function MarkerAt(root: string, parts: seq<string>, i: nat): Option<string>
    requires i < |parts|
  {
    var key := ObjectKey(root, Join(parts[..i + 1]));
    if key.None? then None else Some(Prefix(key.value))
  }

  function MarkerKeys(root: string, parts: seq<string>, n: nat): set<string>
    requires n <= |parts|
  {
    set i | 0 <= i < n && MarkerAt(root, parts, i).Some? :: MarkerAt(root, parts, i).value
  }

  lemma NoMarkers(o: Objects, root: string, parts: seq<string>)
    ensures o + EmptyObjects(MarkerKeys(root, parts, 0)) == o
  {
    hide MarkerAt;
    assert MarkerKeys(root, parts, 0) == {};
  }

  lemma OneMoreMarker(o: Objects, root: string, parts: seq<string>, n: nat)
    requires n < |parts| && MarkerAt(root, parts, n).Some?
    ensures (o + EmptyObjects(MarkerKeys(root, parts, n)))[MarkerAt(root, parts, n).value := []] ==
            o + EmptyObjects(MarkerKeys(root, parts, n + 1))
  {
    hide MarkerAt;
    assert MarkerKeys(root, parts, n + 1) == MarkerKeys(root, parts, n) + {MarkerAt(root, parts, n).value};
  }

  function EmptyObjects(keys: set<string>): Objects {
    map k | k in keys :: []
  }

  /** What a rename of a to b may have done, whether it finished or stopped on the way. */
  ghost predicate RenameOutcome(r: MoveResult, o: Objects, now: Objects, a: string, b: string,
                                copied: seq<string>, deleted: set<string>) {
    && (r.PathMissing? ==> Relocate(o, a, b).None? && now == o)
    && (r.Done? ==> Relocate(o, a, b).Some?)
    && (a in o ==>
          && (r.Done? ==> now == o[b := o[a]] - {a})
          && (now == o || now == o[b := o[a]] || now == o[b := o[a]] - {a}))
    && (a !in o ==>
          && Partway(o, now, Prefix(a), Prefix(b), copied, deleted)
          && (r.Done? ==> Listing(copied, o, Prefix(a)) && deleted == KeySet(copied))
          && (r.Done? && NoOverlap(o, Prefix(a), Prefix(b)) ==> Some(now) == Relocate(o, a, b)))
  }
}
