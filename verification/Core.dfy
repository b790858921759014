/** Vocabulary shared by every module: bytes, content addresses, manifests and the failure type.

    BLAKE3 and the JSON codec are uninterpreted constants.  Nothing is known about them unless a
    lemma or method asks for one of the predicates below in its `requires`. */
module Core {
  datatype Option<+T> = None | Some(value: T)

  datatype Error =
    | Io
    | Corrupt
    | MissingObject
    | UnsafePath
    | Protocol
    | TooLarge

  datatype Result<+T> = Ok(value: T) | Err(error: Error) {
    predicate IsFailure() { Err? }

    function PropagateFailure<U>(): Result<U>
      requires Err?
    {
      Err(error)
    }

    function Extract(): T
      requires Ok?
    {
      value
    }
  }

  type byte = x: int | 0 <= x < 256
  type Bytes = seq<byte>

  /** A 256-bit content address.  Left abstract so that collision freedom is a consistent hypothesis. */
  type Hash(==, 0, !new)

  /** BLAKE3. */
  const HashBytes: Bytes -> Hash

  ghost predicate CollisionFree() {
    forall a: Bytes, b: Bytes :: HashBytes(a) == HashBytes(b) ==> a == b
  }

  datatype FileEntry = FileEntry(
    path: string,
    mode: nat,
    size: nat,
    mtimeSecs: nat,
    mtimeNanos: nat,
    content: Hash,
    chunks: seq<Hash>)

  datatype Manifest = Manifest(
    version: nat,
    parent: Option<Hash>,
    timestamp: nat,
    message: string,
    files: seq<FileEntry>,
    unstable: seq<string>,
    actor: Option<string>)

  /** JSON, as an abstract serialize/parse pair. */
  const SerializeManifest: Manifest -> Bytes
  const ParseManifest: Bytes -> Option<Manifest>

  ghost predicate ManifestRoundTrip() {
    forall m: Manifest :: ParseManifest(SerializeManifest(m)) == Some(m)
  }

  /** Whether the next write fails: only a faulty device may say so. */
  method Fault(faulty: bool) returns (fails: bool)
    ensures !faulty ==> !fails
  {
    fails := false;
    if faulty {
      fails := *;
    }
  }

  function Lookup<K, V>(m: map<K, V>, k: K): Option<V> {
    if k in m then Some(m[k]) else None
  }

  /** What collecting `files` into a map keyed by path keeps for `p`: the last entry. */
  function LastAt(files: seq<FileEntry>, p: string): (e: Option<FileEntry>)
    ensures e.Some? <==> exists k :: 0 <= k < |files| && files[k].path == p
    ensures e.Some? ==> e.value in files && e.value.path == p
  {
    if files == [] then None
    else
      var last := files[|files| - 1];
      if last.path == p then Some(last) else LastAt(files[..|files| - 1], p)
  }

  function ContentOf(e: Option<FileEntry>): Option<Hash> {
    if e.Some? then Some(e.value.content) else None
  }

  /** The content recorded for `p`. */
  function ContentAt(files: seq<FileEntry>, p: string): Option<Hash> {
    ContentOf(LastAt(files, p))
  }

  ghost predicate DistinctPaths(files: seq<FileEntry>) {
    forall i, j :: 0 <= i < j < |files| ==> files[i].path != files[j].path
  }

  lemma {:induction false} LastAtDistinct(files: seq<FileEntry>, e: FileEntry)
    requires DistinctPaths(files) && e in files
    ensures LastAt(files, e.path) == Some(e)
  {
    var k :| 0 <= k < |files| && files[k] == e;
    if k < |files| - 1 {
      LastAtDistinct(files[..|files| - 1], e);
    }
  }

  lemma TakeOneMore<T>(s: seq<T>, i: nat)
    requires i < |s|
    ensures s[..i + 1] == s[..i] + [s[i]]
  {
  }

  lemma ConcatAssociates<T>(a: seq<T>, b: seq<T>, c: seq<T>)
    ensures (a + b) + c == a + (b + c)
  {
  }
}
