/** The byte stream that `clientArtifactDigest` of scripts/client-build-environment.ts hashes: path
    and content of every artifact, each framed by its length. */
module ArtifactDigest {
  import opened Decimals
  import opened Options
  import opened Sorting

  /** A built file; the path is its UTF-8 encoding. */
  datatype Artifact = Artifact(path: Bytes, content: Bytes)

  const COLON: byte := 58

  /** Length, colon, bytes. */
  function Frame(s: Bytes): Bytes {
    Decimal(|s|) + [COLON] + s
  }

  function Entry(f: Artifact): Bytes {
    Frame(f.path) + Frame(f.content)
  }

  function Stream(files: seq<Artifact>): Bytes {
    if files == [] then [] else Entry(files[0]) + Stream(files[1..])
  }

  // ---------- Taking the stream apart ----------

  datatype Taken = Taken(data: Bytes, rest: Bytes)

  function Unframe(s: Bytes): Option<Taken> {
    var (n, tail) := ReadDigits(s, 0);
    if tail == [] || tail[0] != COLON || |tail| - 1 < n then None
    else Some(Taken(tail[1..n + 1], tail[n + 1..]))
  }

  function Decode(s: Bytes): Option<seq<Artifact>>
    decreases |s|
  {
    if s == [] then Some([]) else
      var path := Unframe(s);
      if path.None? || |path.value.rest| >= |s| then None else
        var content := Unframe(path.value.rest);
        if content.None? || |content.value.rest| >= |s| then None else
          var rest := Decode(content.value.rest);
          if rest.None? then None else Some([Artifact(path.value.data, content.value.data)] + rest.value)
  }

  /** The decimal length stops at the first colon, whatever digits and colons the bytes hold. */
  lemma FrameUnframes(s: Bytes, rest: Bytes)
    ensures Unframe(Frame(s) + rest) == Some(Taken(s, rest))
  {
    var tail := [COLON] + s + rest;
    assert Frame(s) + rest == Decimal(|s|) + tail;
    DecimalReads(|s|, tail);
    assert ReadDigits(tail, |s|) == (|s|, tail);
    assert tail[1..|s| + 1] == s && tail[|s| + 1..] == rest;
  }

  lemma EntryDecodes(f: Artifact, rest: Bytes)
    ensures Decode(Entry(f) + rest) == var tail := Decode(rest); if tail.None? then None else Some([f] + tail.value)
  {
    var s := Entry(f) + rest;
    assert s == Frame(f.path) + (Frame(f.content) + rest);
    FrameUnframes(f.path, Frame(f.content) + rest);
    FrameUnframes(f.content, rest);
    assert |Frame(f.path)| > 0 && |Frame(f.content)| > 0;
  }

  /** The stream can be taken apart again into exactly the artifacts that made it. */
  lemma {:induction false} StreamDecodes(files: seq<Artifact>)
    ensures Decode(Stream(files)) == Some(files)
  {
    if files != [] {
      var rest := Stream(files[1..]);
      StreamDecodes(files[1..]);
      EntryDecodes(files[0], rest);
      assert Stream(files) == Entry(files[0]) + rest;
      assert files == [files[0]] + files[1..];
    }
  }

  lemma {:induction false} StreamAppends(files: seq<Artifact>, f: Artifact, more: seq<Artifact>)
    requires more == files + [f]
    ensures Stream(more) == Stream(files) + Entry(f)
  {
    if files == [] {
      assert more[1..] == [];
      assert Stream(more) == Entry(f) + [] == Entry(f);
    } else {
      StreamAppends(files[1..], f, more[1..]);
      assert (Entry(files[0]) + Stream(files[1..])) + Entry(f) == Entry(files[0]) + (Stream(files[1..]) + Entry(f));
    }
  }

  // ---------- The digest ----------

  /** A running hash: what matters of it is the stream it has been given. */
  class Hash {
    var stream: Bytes

    constructor ()
      ensures stream == []
    {
      stream := [];
    }

    method Update(data: Bytes)
      modifies this
      ensures stream == old(stream) + data
    {
      stream := stream + data;
    }
  }

  lemma FourUpdates(s: Bytes, a: Bytes, b: Bytes, c: Bytes, d: Bytes)
    ensures s + a + b + c + d == s + ((a + b) + (c + d))
  {
  }

  method HashArtifact(hash: Hash, f: Artifact)
    modifies hash
    ensures hash.stream == old(hash.stream) + Entry(f)
  {
    hash.Update(Decimal(|f.path|) + [COLON]);
    hash.Update(f.path);
    hash.Update(Decimal(|f.content|) + [COLON]);
    hash.Update(f.content);
    FourUpdates(old(hash.stream), Decimal(|f.path|) + [COLON], f.path, Decimal(|f.content|) + [COLON], f.content);
  }

  /** The stream that a new hash has been given when all artifacts are in it. */
  method HashAll(files: seq<Artifact>) returns (stream: Bytes)
    ensures stream == Stream(files)
  {
    var hash := new Hash();
    for i := 0 to |files|
      invariant fresh(hash) && hash.stream == Stream(files[..i])
    {
      StreamAppends(files[..i], files[i], files[..i + 1]);
      HashArtifact(hash, files[i]);
    }
    assert files[..|files|] == files;
    return hash.stream;
  }

  function ByPath(before: (Bytes, Bytes) -> bool): (Artifact, Artifact) -> bool {
    (x: Artifact, y: Artifact) => before(x.path, y.path)
  }

  /** Refused when nothing was built; otherwise the count, and the digest of the sorted artifacts. */
  method ClientArtifactDigest(files: seq<Artifact>, before: (Bytes, Bytes) -> bool, sha256: Bytes -> string)
    returns (digest: Option<(nat, string)>)
    ensures digest == if files == [] then None else Some((|files|, sha256(Stream(Sort(files, ByPath(before))))))
  {
    if files == [] { return None; }
    var sorted := Sort(files, ByPath(before));
    SortPermutes(files, ByPath(before));
    var stream := HashAll(sorted);
    return Some((|sorted|, sha256(stream)));
  }

  ghost predicate DistinctPaths(files: seq<Artifact>) {
    forall i, j :: 0 <= i < j < |files| ==> files[i].path != files[j].path
  }

  lemma SortedByPath(a: seq<Artifact>, b: seq<Artifact>, before: (Bytes, Bytes) -> bool)
    requires TotalPreorder(before) && Antisymmetric(before) && DistinctPaths(a) && multiset(a) == multiset(b)
    ensures Sort(a, ByPath(before)) == Sort(b, ByPath(before))
  {
    var le := ByPath(before);
    var x := Sort(a, le);
    SortPermutes(a, le);
    SortPermutes(b, le);
    ByPathIsTotal(before);
    SortOrders(a, le);
    SortOrders(b, le);
    ByPathTellsApart(a, x, before);
    OrderedIsUnique(x, Sort(b, le), le);
  }

  lemma ByPathIsTotal(before: (Bytes, Bytes) -> bool)
    requires TotalPreorder(before)
    ensures TotalPreorder(ByPath(before))
  {
    var le := ByPath(before);
    forall f, g ensures le(f, g) || le(g, f) { assert before(f.path, g.path) || before(g.path, f.path); }
    forall f, g, h | le(f, g) && le(g, h) ensures le(f, h) { assert before(f.path, g.path) && before(g.path, h.path); }
  }

  lemma ByPathTellsApart(a: seq<Artifact>, x: seq<Artifact>, before: (Bytes, Bytes) -> bool)
    requires Antisymmetric(before) && DistinctPaths(a) && multiset(x) == multiset(a)
    ensures ToldApart(x, ByPath(before))
  {
    var le := ByPath(before);
    forall i, j | 0 <= i < |x| && 0 <= j < |x| && le(x[i], x[j]) && le(x[j], x[i]) ensures x[i] == x[j] {
      assert x[i].path == x[j].path;
      assert x[i] in multiset(x) && x[j] in multiset(x);
    }
  }

  /** Two builds are hashed from the same stream if and only if they have the same paths with the same
      contents, in whatever order they were discovered. */
  lemma SameStreamIffSameArtifacts(a: seq<Artifact>, b: seq<Artifact>, before: (Bytes, Bytes) -> bool)
    requires TotalPreorder(before) && Antisymmetric(before) && DistinctPaths(a)
    ensures Stream(Sort(a, ByPath(before))) == Stream(Sort(b, ByPath(before))) <==> multiset(a) == multiset(b)
  {
    StreamDecodes(Sort(a, ByPath(before)));
    StreamDecodes(Sort(b, ByPath(before)));
    SortPermutes(a, ByPath(before));
    SortPermutes(b, ByPath(before));
    if multiset(a) == multiset(b) { SortedByPath(a, b, before); }
  }
}
