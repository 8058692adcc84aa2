/** `readGitFiles` of scripts/benchmark-npm-resolution.ts: the reader of `git cat-file --batch`
    output, in which every object is `<oid> <type> <size>`, a newline, its bytes, and a newline. */
module GitBatch {
  import opened Collections
  import opened Decimals
  import opened Options
  import Utf8

  const NL: byte := 10
  const SPACE: byte := 32
  const PLUS: byte := 43
  const MINUS: byte := 45
  const MISSING: Bytes := [32, 109, 105, 115, 115, 105, 110, 103]  // " missing"
  const MAX_SAFE_INTEGER: int := 9007199254740991

  // ---------- Reading ----------

  /** The first position of `b` from `from` on, or -1. */
  function IndexOf(s: Bytes, b: byte, from: nat): (i: int)
    ensures i == -1 || (from <= i < |s| && s[i] == b)
    ensures i == -1 ==> forall k :: from <= k < |s| ==> s[k] != b
    ensures i >= 0 ==> forall k :: from <= k < i ==> s[k] != b
    decreases |s| - from
  {
    if from >= |s| then -1 else if s[from] == b then from else IndexOf(s, b, from + 1)
  }

  function EndsWith(s: Bytes, tail: Bytes): bool {
    |s| >= |tail| && s[|s| - |tail|..] == tail
  }

  /** The field after the second space, or nothing. */
  function ThirdField(header: Bytes): Bytes {
    var i := IndexOf(header, SPACE, 0);
    if i < 0 then [] else
      var j := IndexOf(header, SPACE, i + 1);
      if j < 0 then [] else
        var k := IndexOf(header, SPACE, j + 1);
        if k < 0 then header[j + 1..] else header[j + 1..k]
  }

  function SkipBlanks(s: Bytes): Bytes {
    if s != [] && (s[0] == SPACE || 9 <= s[0] <= 13) then SkipBlanks(s[1..]) else s
  }

  /** `Number.parseInt(text, 10)`: blanks, a sign, leading digits; whatever follows is ignored. */
  function ParseInt(text: Bytes): Option<int> {
    var s := SkipBlanks(text);
    var negative := s != [] && s[0] == MINUS;
    var digits := if negative || (s != [] && s[0] == PLUS) then s[1..] else s;
    if digits == [] || !IsDigit(digits[0]) then None
    else
      var n: int := ReadDigits(digits, 0).0;
      Some(if negative then -n else n)
  }

  datatype Problem = NoHeader | Missing | InvalidSize | Truncated

  /** What a header announces. */
  datatype Size = Unsized(problem: Problem) | Sized(length: nat)

  function HeaderSize(header: Bytes): Size {
    if EndsWith(header, MISSING) then Unsized(Missing) else
      var size := ParseInt(ThirdField(header));
      if size.None? || size.value > MAX_SAFE_INTEGER || size.value < 0 then Unsized(InvalidSize) else Sized(size.value)
  }

  /** One object off the front of the output. */
  datatype Reading = Failed(problem: Problem) | Object(content: Bytes, length: nat)

  function ReadWith(s: Bytes, sizeOf: Bytes -> Size): (r: Reading)
    ensures r.Object? ==> r.length <= |s|
  {
    var headerEnd := IndexOf(s, NL, 0);
    if headerEnd < 0 then Failed(NoHeader) else
      match sizeOf(s[..headerEnd])
      case Unsized(problem) => Failed(problem)
      case Sized(length) =>
        var contentEnd := headerEnd + 1 + length;
        if contentEnd >= |s| || s[contentEnd] != NL then Failed(Truncated)
        else Object(s[headerEnd + 1..contentEnd], contentEnd + 1)
  }

  datatype Result = Failure(path: string, problem: Problem) | Success(contents: map<string, string>)

  function ReadAll(paths: seq<string>, s: Bytes, contents: map<string, string>, sizeOf: Bytes -> Size,
                   decode: Bytes -> string): Result {
    if paths == [] then Success(contents) else
      match ReadWith(s, sizeOf)
      case Failed(problem) => Failure(paths[0], problem)
      case Object(content, length) =>
        ReadAll(paths[1..], s[length..], contents[paths[0] := decode(content)], sizeOf, decode)
  }

  /** The object at an offset; `length` leads to the next one. */
  method ReadAt(output: Bytes, offset: nat, sizeOf: Bytes -> Size) returns (reading: Reading)
    requires offset <= |output|
    ensures reading == ReadWith(output[offset..], sizeOf)
  {
    ghost var s := output[offset..];
    var headerEnd := IndexOf(output, NL, offset);
    if headerEnd < 0 { return Failed(NoHeader); }
    assert output[offset..headerEnd] == s[..headerEnd - offset];
    var size := sizeOf(output[offset..headerEnd]);
    if size.Unsized? { return Failed(size.problem); }
    var contentStart := headerEnd + 1;
    var contentEnd := contentStart + size.length;
    if contentEnd >= |output| || output[contentEnd] != NL { return Failed(Truncated); }
    assert output[contentStart..contentEnd] == s[contentStart - offset..contentEnd - offset];
    return Object(output[contentStart..contentEnd], contentEnd + 1 - offset);
  }

  lemma NextObject(paths: seq<string>, output: Bytes, p: nat, offset: nat, contents: map<string, string>,
                   sizeOf: Bytes -> Size, decode: Bytes -> string)
    requires p < |paths| && offset <= |output|
    ensures var r := ReadWith(output[offset..], sizeOf);
      ReadAll(paths[p..], output[offset..], contents, sizeOf, decode) ==
        if r.Failed? then Failure(paths[p], r.problem)
        else ReadAll(paths[p + 1..], output[offset + r.length..], contents[paths[p] := decode(r.content)], sizeOf,
          decode)
  {
    var r := ReadWith(output[offset..], sizeOf);
    assert paths[p..][1..] == paths[p + 1..];
    if r.Object? {
      assert output[offset..][r.length..] == output[offset + r.length..];
    }
  }

  /** Where the reader stands: behind the objects read so far, or stopped at the first bad one. */
  datatype State = Running(offset: nat, contents: map<string, string>) | Stopped(path: string, problem: Problem)

  ghost function After(paths: seq<string>, output: Bytes, n: nat, sizeOf: Bytes -> Size, decode: Bytes -> string)
    : (r: State)
    requires n <= |paths|
    ensures r.Running? ==> r.offset <= |output|
  {
    if n == 0 then Running(0, map[]) else
      match After(paths, output, n - 1, sizeOf, decode)
      case Stopped(path, problem) => Stopped(path, problem)
      case Running(offset, contents) =>
        match ReadWith(output[offset..], sizeOf)
        case Failed(problem) => Stopped(paths[n - 1], problem)
        case Object(content, length) => Running(offset + length, contents[paths[n - 1] := decode(content)])
  }

  /** Moving an offset through the output is consuming the output. */
  lemma {:induction false} AfterIsReadAll(paths: seq<string>, output: Bytes, n: nat, sizeOf: Bytes -> Size,
                                          decode: Bytes -> string)
    requires n <= |paths|
    ensures ReadAll(paths, output, map[], sizeOf, decode) ==
      match After(paths, output, n, sizeOf, decode)
      case Stopped(path, problem) => Failure(path, problem)
      case Running(offset, contents) => ReadAll(paths[n..], output[offset..], contents, sizeOf, decode)
  {
    if n == 0 {
      assert output[0..] == output && paths[0..] == paths;
    } else {
      AfterIsReadAll(paths, output, n - 1, sizeOf, decode);
      match After(paths, output, n - 1, sizeOf, decode)
      case Stopped(_, _) =>
      case Running(offset, contents) => NextObject(paths, output, n - 1, offset, contents, sizeOf, decode);
    }
  }

  /** Read one object for each path, moving the offset behind it. */
  method ReadObjects(paths: seq<string>, output: Bytes, sizeOf: Bytes -> Size, decode: Bytes -> string)
    returns (result: Result)
    ensures result == ReadAll(paths, output, map[], sizeOf, decode)
  {
    var contents: map<string, string> := map[];
    var offset: nat := 0;
    for p := 0 to |paths|
      invariant offset <= |output| && After(paths, output, p, sizeOf, decode) == Running(offset, contents)
    {
      var reading := ReadAt(output, offset, sizeOf);
      if reading.Failed? {
        AfterIsReadAll(paths, output, p + 1, sizeOf, decode);
        return Failure(paths[p], reading.problem);
      }
      contents := contents[paths[p] := decode(reading.content)];
      offset := offset + reading.length;
    }
    AfterIsReadAll(paths, output, |paths|, sizeOf, decode);
    return Success(contents);
  }

  method ReadGitFiles(paths: seq<string>, output: Bytes) returns (result: Result)
    ensures result == ReadAll(paths, output, map[], HeaderSize, Utf8.Decode)
  {
    result := ReadObjects(paths, output, HeaderSize, Utf8.Decode);
  }

  // ---------- What git writes ----------

  /** An object; the name and the type hold neither spaces nor newlines. */
  datatype GitObject = GitObject(oid: Bytes, kind: Bytes, content: Bytes)

  ghost predicate WellNamed(o: GitObject) {
    && (forall b :: b in o.oid ==> b != SPACE && b != NL)
    && (forall b :: b in o.kind ==> b != SPACE && b != NL)
    && |o.content| <= MAX_SAFE_INTEGER
  }

  function Header(o: GitObject): Bytes {
    o.oid + [SPACE] + (o.kind + [SPACE] + Decimal(|o.content|))
  }

  function Frame(o: GitObject): Bytes {
    Header(o) + [NL] + o.content + [NL]
  }

  function Batch(objects: seq<GitObject>): Bytes {
    if objects == [] then [] else Frame(objects[0]) + Batch(objects[1..])
  }

  function Contents(paths: seq<string>, objects: seq<GitObject>, contents: map<string, string>, decode: Bytes -> string)
    : map<string, string>
    requires |paths| == |objects|
  {
    if paths == [] then contents else
      Contents(paths[1..], objects[1..], contents[paths[0] := decode(objects[0].content)], decode)
  }

  /** The next `b` after `a` ends the stretch `p`. */
  lemma IndexAfter(a: Bytes, p: Bytes, b: byte, rest: Bytes, s: Bytes)
    requires s == a + p + [b] + rest && b !in p
    ensures IndexOf(s, b, |a|) == |a| + |p|
  {
    assert s[|a| + |p|] == b;
    forall k | |a| <= k < |a| + |p| ensures s[k] != b { assert s[k] == p[k - |a|]; }
  }

  lemma NoIndexAfter(a: Bytes, p: Bytes, b: byte, s: Bytes)
    requires s == a + p && b !in p
    ensures IndexOf(s, b, |a|) == -1
  {
    forall k | |a| <= k < |s| ensures s[k] != b { assert s[k] == p[k - |a|]; }
  }

  lemma HeaderThird(o: GitObject)
    requires WellNamed(o)
    ensures ThirdField(Header(o)) == Decimal(|o.content|)
  {
    var h, d := Header(o), Decimal(|o.content|);
    var a, b := o.oid + [SPACE], o.oid + [SPACE] + o.kind + [SPACE];
    assert h == [] + o.oid + [SPACE] + (o.kind + [SPACE] + d);
    IndexAfter([], o.oid, SPACE, o.kind + [SPACE] + d, h);
    assert h == a + o.kind + [SPACE] + d;
    IndexAfter(a, o.kind, SPACE, d, h);
    assert h == b + d;
    NoIndexAfter(b, d, SPACE, h);
  }

  lemma HeaderFields(o: GitObject)
    requires WellNamed(o)
    ensures ThirdField(Header(o)) == Decimal(|o.content|)
    ensures NL !in Header(o)
    ensures !EndsWith(Header(o), MISSING)
  {
    var h, d := Header(o), Decimal(|o.content|);
    HeaderThird(o);
    assert h[|h| - 1] == d[|d| - 1];
    if |h| >= |MISSING| { assert h[|h| - 1] == h[|h| - |MISSING|..][|MISSING| - 1]; }
  }

  lemma ParseDecimal(n: nat)
    ensures ParseInt(Decimal(n)) == Some(n)
  {
    var d := Decimal(n);
    assert IsDigit(d[0]) && SkipBlanks(d) == d;
    DecimalReads(n, []);
    assert d + [] == d;
  }

  lemma FrameReadsWith(h: Bytes, content: Bytes, rest: Bytes, s: Bytes, sizeOf: Bytes -> Size)
    requires s == h + [NL] + content + [NL] + rest && NL !in h && sizeOf(h) == Sized(|content|)
    ensures ReadWith(s, sizeOf) == Object(content, |h| + |content| + 2)
  {
    var end := |h| + 1 + |content|;
    assert s == [] + h + [NL] + (content + [NL] + rest);
    IndexAfter([], h, NL, content + [NL] + rest, s);
    assert s[..|h|] == h && s[|h| + 1..end] == content && s[end] == NL;
  }

  lemma CutFailsWith(h: Bytes, content: Bytes, k: nat, s: Bytes, sizeOf: Bytes -> Size)
    requires k < |h| + |content| + 2 && s == (h + [NL] + content + [NL])[..k]
    requires NL !in h && sizeOf(h) == Sized(|content|)
    ensures ReadWith(s, sizeOf).Failed?
  {
    if k <= |h| {
      assert s == [] + h[..k] && NL !in h[..k];
      NoIndexAfter([], h[..k], NL, s);
    } else {
      assert s == [] + h + [NL] + s[|h| + 1..];
      IndexAfter([], h, NL, s[|h| + 1..], s);
      assert s[..|h|] == h;
    }
  }

  lemma HeaderSizes(o: GitObject)
    requires WellNamed(o)
    ensures HeaderSize(Header(o)) == Sized(|o.content|) && NL !in Header(o)
  {
    HeaderFields(o);
    ParseDecimal(|o.content|);
  }

  /** The sizes of all headers are read right. */
  ghost predicate SizesRead(objects: seq<GitObject>, sizeOf: Bytes -> Size) {
    forall o :: o in objects ==> NL !in Header(o) && sizeOf(Header(o)) == Sized(|o.content|)
  }

  lemma HeaderSizesRead(objects: seq<GitObject>)
    requires forall o :: o in objects ==> WellNamed(o)
    ensures SizesRead(objects, HeaderSize)
  {
    forall o | o in objects ensures NL !in Header(o) && HeaderSize(Header(o)) == Sized(|o.content|) {
      HeaderSizes(o);
    }
  }

  lemma FirstIsRead(paths: seq<string>, o: GitObject, rest: Bytes, s: Bytes, contents: map<string, string>,
                    sizeOf: Bytes -> Size, decode: Bytes -> string)
    requires paths != [] && s == Frame(o) + rest && NL !in Header(o) && sizeOf(Header(o)) == Sized(|o.content|)
    ensures ReadAll(paths, s, contents, sizeOf, decode) ==
      ReadAll(paths[1..], rest, contents[paths[0] := decode(o.content)], sizeOf, decode)
  {
    FrameReadsWith(Header(o), o.content, rest, s, sizeOf);
    assert s[|Frame(o)|..] == rest;
  }

  lemma {:induction false} BatchReadsWith(paths: seq<string>, objects: seq<GitObject>, rest: Bytes,
                                          contents: map<string, string>, sizeOf: Bytes -> Size, decode: Bytes -> string)
    requires |paths| == |objects| && SizesRead(objects, sizeOf)
    ensures ReadAll(paths, Batch(objects) + rest, contents, sizeOf, decode) ==
      Success(Contents(paths, objects, contents, decode))
  {
    if paths != [] {
      var o, tail := objects[0], Batch(objects[1..]) + rest;
      assert Batch(objects) + rest == Frame(o) + tail;
      FirstIsRead(paths, o, tail, Batch(objects) + rest, contents, sizeOf, decode);
      BatchReadsWith(paths[1..], objects[1..], rest, contents[paths[0] := decode(o.content)], sizeOf, decode);
    }
  }

  lemma CutFirstFails(paths: seq<string>, o: GitObject, k: nat, s: Bytes, contents: map<string, string>,
                      sizeOf: Bytes -> Size, decode: Bytes -> string)
    requires paths != [] && k < |Frame(o)| && s == Frame(o)[..k] && NL !in Header(o)
    requires sizeOf(Header(o)) == Sized(|o.content|)
    ensures ReadAll(paths, s, contents, sizeOf, decode).Failure?
  {
    CutFailsWith(Header(o), o.content, k, s, sizeOf);
  }

  lemma {:induction false} PrefixFailsWith(paths: seq<string>, objects: seq<GitObject>, k: nat, s: Bytes,
                                           contents: map<string, string>, sizeOf: Bytes -> Size,
                                           decode: Bytes -> string)
    requires |paths| == |objects| && SizesRead(objects, sizeOf) && k < |Batch(objects)| && s == Batch(objects)[..k]
    ensures ReadAll(paths, s, contents, sizeOf, decode).Failure?
  {
    var o, n := objects[0], |Frame(objects[0])|;
    if k < n {
      CutFirstFails(paths, o, k, s, contents, sizeOf, decode);
    } else {
      var cut := Batch(objects[1..])[..k - n];
      FirstIsRead(paths, o, cut, s, contents, sizeOf, decode);
      PrefixFailsWith(paths[1..], objects[1..], k - n, cut, contents[paths[0] := decode(o.content)], sizeOf, decode);
    }
  }

  /** The reader inverts the framing: of every list of objects, with any bytes and anything after the
      last one, the decoded contents are read back path by path. */
  lemma BatchReads(paths: seq<string>, objects: seq<GitObject>, rest: Bytes, contents: map<string, string>)
    requires |paths| == |objects| && forall o :: o in objects ==> WellNamed(o)
    ensures ReadAll(paths, Batch(objects) + rest, contents, HeaderSize, Utf8.Decode) ==
      Success(Contents(paths, objects, contents, Utf8.Decode))
  {
    HeaderSizesRead(objects);
    BatchReadsWith(paths, objects, rest, contents, HeaderSize, Utf8.Decode);
  }

  /** Every strict prefix of a valid batch is refused. */
  lemma PrefixFails(paths: seq<string>, objects: seq<GitObject>, k: nat, contents: map<string, string>)
    requires |paths| == |objects| && (forall o :: o in objects ==> WellNamed(o)) && k < |Batch(objects)|
    ensures ReadAll(paths, Batch(objects)[..k], contents, HeaderSize, Utf8.Decode).Failure?
  {
    HeaderSizesRead(objects);
    PrefixFailsWith(paths, objects, k, Batch(objects)[..k], contents, HeaderSize, Utf8.Decode);
  }

  /** What the map says of a path: the decoded content of the last object requested under it. */
  lemma {:induction false} ContentsSay(paths: seq<string>, objects: seq<GitObject>, contents: map<string, string>,
                                       decode: Bytes -> string, i: nat)
    requires |paths| == |objects| && i < |paths| && forall j :: i < j < |paths| ==> paths[j] != paths[i]
    ensures var m := Contents(paths, objects, contents, decode);
      paths[i] in m && m[paths[i]] == decode(objects[i].content)
  {
    var contents' := contents[paths[0] := decode(objects[0].content)];
    if i == 0 {
      ContentsKeep(paths[1..], objects[1..], contents', decode, paths[0]);
    } else {
      ContentsSay(paths[1..], objects[1..], contents', decode, i - 1);
    }
  }

  lemma {:induction false} ContentsKeep(paths: seq<string>, objects: seq<GitObject>, contents: map<string, string>,
                                        decode: Bytes -> string, path: string)
    requires |paths| == |objects| && path !in paths && path in contents
    ensures var m := Contents(paths, objects, contents, decode); path in m && m[path] == contents[path]
  {
    if paths != [] {
      ContentsKeep(paths[1..], objects[1..], contents[paths[0] := decode(objects[0].content)], decode, path);
    }
  }

  // ---------- When two batches read alike ----------

  /** The contents decode to the same texts. */
  ghost predicate Alike(objects: seq<GitObject>, others: seq<GitObject>, decode: Bytes -> string)
    requires |objects| == |others|
  {
    forall i :: 0 <= i < |objects| ==> decode(objects[i].content) == decode(others[i].content)
  }

  lemma {:induction false} AlikeContents(paths: seq<string>, objects: seq<GitObject>, others: seq<GitObject>,
                                         contents: map<string, string>, decode: Bytes -> string)
    requires |paths| == |objects| == |others| && Alike(objects, others, decode)
    ensures Contents(paths, objects, contents, decode) == Contents(paths, others, contents, decode)
  {
    if paths != [] {
      assert decode(objects[0].content) == decode(others[0].content);
      AlikeContents(paths[1..], objects[1..], others[1..], contents[paths[0] := decode(objects[0].content)], decode);
    }
  }

  lemma AlikeIff(paths: seq<string>, objects: seq<GitObject>, others: seq<GitObject>, decode: Bytes -> string)
    requires |paths| == |objects| == |others| && NoRepeats(paths)
    ensures Contents(paths, objects, map[], decode) == Contents(paths, others, map[], decode) <==>
      Alike(objects, others, decode)
  {
    if Alike(objects, others, decode) {
      AlikeContents(paths, objects, others, map[], decode);
    } else {
      var i :| 0 <= i < |objects| && decode(objects[i].content) != decode(others[i].content);
      ContentsSay(paths, objects, map[], decode, i);
      ContentsSay(paths, others, map[], decode, i);
    }
  }

  /** Two batches for the same paths give the same result exactly when their contents decode alike. */
  lemma SameResultIff(paths: seq<string>, objects: seq<GitObject>, others: seq<GitObject>)
    requires |paths| == |objects| == |others| && NoRepeats(paths)
    requires forall o :: o in objects + others ==> WellNamed(o)
    ensures ReadAll(paths, Batch(objects), map[], HeaderSize, Utf8.Decode) ==
      ReadAll(paths, Batch(others), map[], HeaderSize, Utf8.Decode)
      <==> Alike(objects, others, Utf8.Decode)
  {
    BatchReads(paths, objects, [], map[]);
    BatchReads(paths, others, [], map[]);
    assert Batch(objects) + [] == Batch(objects) && Batch(others) + [] == Batch(others);
    AlikeIff(paths, objects, others, Utf8.Decode);
  }

  /** Batches of valid UTF-8 are told apart: same result, same contents. */
  lemma ValidIsToldApart(paths: seq<string>, objects: seq<GitObject>, others: seq<GitObject>)
    requires |paths| == |objects| == |others| && NoRepeats(paths)
    requires forall o :: o in objects + others ==> WellNamed(o) && Utf8.Valid(o.content)
    ensures ReadAll(paths, Batch(objects), map[], HeaderSize, Utf8.Decode) ==
      ReadAll(paths, Batch(others), map[], HeaderSize, Utf8.Decode)
      <==> forall i :: 0 <= i < |objects| ==> objects[i].content == others[i].content
  {
    SameResultIff(paths, objects, others);
    forall i | 0 <= i < |objects| && Utf8.Decode(objects[i].content) == Utf8.Decode(others[i].content)
      ensures objects[i].content == others[i].content
    {
      assert objects[i] in objects + others && others[i] in objects + others;
      Utf8.ValidAreToldApart(objects[i].content, others[i].content);
    }
  }

  /** Other bytes are not: a byte that begins no character reads like a written replacement character. */
  lemma StrayByteIsLost(path: string, oid: Bytes, kind: Bytes)
    requires WellNamed(GitObject(oid, kind, []))
    ensures var stray, written := GitObject(oid, kind, [0xFF]),
      GitObject(oid, kind, Utf8.EncodeAll([Utf8.REPLACEMENT]));
      && stray.content != written.content
      && ReadAll([path], Batch([stray]), map[], HeaderSize, Utf8.Decode) ==
        ReadAll([path], Batch([written]), map[], HeaderSize, Utf8.Decode)
  {
    var stray, written := GitObject(oid, kind, [0xFF]), GitObject(oid, kind, Utf8.EncodeAll([Utf8.REPLACEMENT]));
    Utf8.StrayByte();
    assert WellNamed(stray) && WellNamed(written);
    assert Alike([stray], [written], Utf8.Decode);
    SameResultIff([path], [stray], [written]);
  }
}
