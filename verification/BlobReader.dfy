/** The `git cat-file --batch` reader of windows-source-verify.py: every object is a line that ends
    with its size, that many bytes whatever they are, and a line feed. */
module BlobReader {
  import opened Bytes

  datatype Error = NoHeader | NotANumber | NoLineFeed

  /** What git answers for one name. */
  datatype Object = Blob(id: seq<byte>, data: seq<byte>) | Missing(name: seq<byte>)

  predicate Valid(o: Object) {
    LF !in (if o.Blob? then o.id else o.name)
  }

  function EncodeObject(o: Object): seq<byte> {
    match o
    case Blob(id, data) => id + Ascii(" blob") + [SPACE] + Numeral(|data|, 10) + [LF] + (data + [LF])
    case Missing(name) => name + [SPACE] + Ascii("missing") + [LF]
  }

  function EncodeObjects(objects: seq<Object>): seq<byte> {
    if objects == [] then [] else EncodeObject(objects[0]) + EncodeObjects(objects[1..])
  }

  // ---------------------------------------------------------------- the reader

  /** One turn: the header line, the data, and the line feed after it. */
  function ReadBlob(s: seq<byte>): Result<(seq<byte>, seq<byte>), Error> {
    var n := LineLength(s);
    var size := LastToken(s[..n]);
    if size == [] then Failure(NoHeader)
    else if PyInt(size).None? then Failure(NotANumber)
    else
      var rest := s[n..];
      var m := ReadLength(PyInt(size).value, |rest|);
      if m == |rest| || rest[m] != LF then Failure(NoLineFeed) else Success((rest[..m], rest[m + 1..]))
  }

  type Tree = map<seq<byte>, seq<byte>>

  /** A path whose file is absent from the checkout, or has another digest than the blob. */
  predicate Differs<D(==)>(tree: Tree, path: seq<byte>, data: seq<byte>, digest: seq<byte> -> D) {
    path !in tree || digest(tree[path]) != digest(data)
  }

  /** The mismatching paths and the unread bytes, or the exception that ended the loop. */
  function Compare<D(==)>(paths: seq<seq<byte>>, s: seq<byte>, tree: Tree, digest: seq<byte> -> D)
    : Result<(seq<seq<byte>>, seq<byte>), Error>
  {
    if paths == [] then Success(([], s))
    else
      var blob := ReadBlob(s);
      if blob.Failure? then Failure(blob.error)
      else
        var more := Compare(paths[1..], blob.value.1, tree, digest);
        if more.Failure? then more
        else
          Success(((if Differs(tree, paths[0], blob.value.0, digest) then [paths[0]] else []) + more.value.0,
                   more.value.1))
  }

  /** A result with earlier mismatches put before its own. */
  function After(found: seq<seq<byte>>, r: Result<(seq<seq<byte>>, seq<byte>), Error>)
    : Result<(seq<seq<byte>>, seq<byte>), Error>
  {
    if r.Failure? then r else Success((found + r.value.0, r.value.1))
  }

  /** The loop over `paths` with its read position and its list of mismatches. */
  method VerifyBlobs<D(==)>(paths: seq<seq<byte>>, bytes: seq<byte>, tree: Tree, digest: seq<byte> -> D)
    returns (r: Result<(seq<seq<byte>>, seq<byte>), Error>)
    ensures r == Compare(paths, bytes, tree, digest)
  {
    hide ReadBlob, Differs;
    var blobs := bytes;
    var mismatches: seq<seq<byte>> := [];
    assert paths[0..] == paths;
    assert forall m: seq<seq<byte>> :: [] + m == m;
    for i := 0 to |paths|
      invariant Compare(paths, bytes, tree, digest) == After(mismatches, Compare(paths[i..], blobs, tree, digest))
    {
      assert paths[i..][0] == paths[i] && paths[i..][1..] == paths[i + 1..];
      var blob := ReadBlob(blobs);
      if blob.Failure? { return Failure(blob.error); }
      ghost var found := if Differs(tree, paths[i], blob.value.0, digest) then [paths[i]] else [];
      ghost var more := Compare(paths[i + 1..], blob.value.1, tree, digest);
      if more.Success? {
        Associate(mismatches, found, more.value.0);
      }
      assert mismatches + [] == mismatches;
      if Differs(tree, paths[i], blob.value.0, digest) {
        mismatches := mismatches + [paths[i]];
      }
      blobs := blob.value.1;
    }
    assert paths[|paths|..] == [] && mismatches + [] == mismatches;
    return Success((mismatches, blobs));
  }

  // ---------------------------------------------------------------- the round trip

  lemma {:induction false} HeaderToken(before: seq<byte>, token: seq<byte>)
    requires token != [] && BlankFree(token)
    ensures LastToken(before + [SPACE] + token + [LF]) == token
  {
    var line := before + [SPACE] + token;
    StripRightOf(line, [LF]);
    TrailingTokenOf(before + [SPACE], token);
  }

  /** A blob is read back whatever it contains, and the next object starts right after it. */
  lemma {:induction false} ReadsBlob(id: seq<byte>, data: seq<byte>, rest: seq<byte>)
    requires LF !in id
    ensures ReadBlob(EncodeObject(Blob(id, data)) + rest) == Success((data, rest))
  {
    hide LineLength, LastToken, PyInt, Numeral;
    var size := Numeral(|data|, 10);
    var text := id + Ascii(" blob") + [SPACE] + size;
    var after := data + [LF] + rest;
    var s := EncodeObject(Blob(id, data)) + rest;
    assert s == text + [LF] + after;
    assert LF !in text by {
      assert LF !in Ascii(" blob");
      assert forall k | 0 <= k < |size| :: !IsBlank(size[k]);
    }
    LineLengthOf(text, after);
    assert s[..|text| + 1] == text + [LF] && s[|text| + 1..] == after;
    HeaderToken(id + Ascii(" blob"), size);
    PyIntOfNumeral(|data|);
    assert after[..|data|] == data && after[|data|] == LF && after[|data| + 1..] == rest;
  }

  /** Data that no line feed follows, because the size is wrong or the stream ends, are refused. */
  lemma {:induction false} RefusesBadFrame(id: seq<byte>, size: nat, after: seq<byte>)
    requires LF !in id && (size >= |after| || after[size] != LF)
    ensures ReadBlob(id + Ascii(" blob ") + Numeral(size, 10) + [LF] + after) == Failure(NoLineFeed)
  {
    hide LineLength, LastToken, PyInt, Numeral;
    var digits := Numeral(size, 10);
    var text := id + Ascii(" blob ") + digits;
    assert LF !in text by {
      assert LF !in Ascii(" blob ");
      assert forall k | 0 <= k < |digits| :: !IsBlank(digits[k]);
    }
    LineLengthOf(text, after);
    assert (text + [LF] + after)[..|text| + 1] == text + [LF] && (text + [LF] + after)[|text| + 1..] == after;
    assert Ascii(" blob ") == Ascii(" blob") + [SPACE];
    Associate(id, Ascii(" blob"), [SPACE]);
    HeaderToken(id + Ascii(" blob"), digits);
    PyIntOfNumeral(size);
  }

  lemma {:induction false} RefusesMissing(name: seq<byte>, rest: seq<byte>)
    requires LF !in name
    ensures ReadBlob(EncodeObject(Missing(name)) + rest) == Failure(NotANumber)
  {
    hide LineLength, LastToken;
    var word := Ascii("missing");
    var text := name + [SPACE] + word;
    assert EncodeObject(Missing(name)) + rest == text + [LF] + rest;
    assert LF !in word && BlankFree(word);
    LineLengthOf(text, rest);
    assert (text + [LF] + rest)[..|text| + 1] == text + [LF];
    HeaderToken(name, word);
    assert word[0] == 109 && word[6] == 103;
  }

  predicate AllFound(objects: seq<Object>) {
    forall i | 0 <= i < |objects| :: objects[i].Blob?
  }

  /** The paths that differ, said without the stream. */
  ghost function Differing<D>(paths: seq<seq<byte>>, objects: seq<Object>, tree: Tree, digest: seq<byte> -> D): seq<seq<byte>>
    requires |paths| == |objects| && AllFound(objects)
  {
    if paths == [] then []
    else
      (if Differs(tree, paths[0], objects[0].data, digest) then [paths[0]] else [])
      + Differing(paths[1..], objects[1..], tree, digest)
  }

  /** MAIN RESULT. For any list of objects with arbitrary contents, line feeds included, the loop
      recovers every blob and stops exactly at the end of the stream; a missing object is refused. */
  lemma {:induction false} ComparesEveryBlob<D>(
    paths: seq<seq<byte>>, objects: seq<Object>, rest: seq<byte>, tree: Tree, digest: seq<byte> -> D)
    requires |paths| == |objects|
    requires forall i | 0 <= i < |objects| :: Valid(objects[i])
    ensures Compare(paths, EncodeObjects(objects) + rest, tree, digest)
         == if AllFound(objects) then Success((Differing(paths, objects, tree, digest), rest)) else Failure(NotANumber)
    decreases objects
  {
    hide ReadBlob, EncodeObject, Differs;
    if objects == [] {
      assert EncodeObjects(objects) + rest == rest;
    } else {
      var after := EncodeObjects(objects[1..]) + rest;
      Associate(EncodeObject(objects[0]), EncodeObjects(objects[1..]), rest);
      assert Valid(objects[0]);
      if objects[0].Missing? {
        RefusesMissing(objects[0].name, after);
      } else {
        ReadsBlob(objects[0].id, objects[0].data, after);
        ComparesEveryBlob(paths[1..], objects[1..], rest, tree, digest);
        assert AllFound(objects) == AllFound(objects[1..]) by {
          assert forall i | 1 <= i < |objects| :: objects[i] == objects[1..][i - 1];
        }
      }
    }
  }

  ghost predicate Injective<D(!new)>(digest: seq<byte> -> D) {
    forall a, b | digest(a) == digest(b) :: a == b
  }

  /** With a digest that distinguishes contents, the check reports no mismatch exactly when every
      tracked path is a file of the checkout with the blob's own bytes. */
  lemma {:induction false} PassesExactlyOnEqualFiles<D(!new)>(
    paths: seq<seq<byte>>, objects: seq<Object>, tree: Tree, digest: seq<byte> -> D)
    requires |paths| == |objects| && Injective(digest)
    requires forall i | 0 <= i < |objects| :: Valid(objects[i])
    ensures Compare(paths, EncodeObjects(objects), tree, digest) == Success(([], []))
       <==> AllFound(objects) && forall i | 0 <= i < |paths| :: paths[i] in tree && tree[paths[i]] == objects[i].data
  {
    ComparesEveryBlob(paths, objects, [], tree, digest);
    assert EncodeObjects(objects) + [] == EncodeObjects(objects);
    if AllFound(objects) {
      NoneDiffers(paths, objects, tree, digest);
    }
  }

  lemma {:induction false} NoneDiffers<D(!new)>(
    paths: seq<seq<byte>>, objects: seq<Object>, tree: Tree, digest: seq<byte> -> D)
    requires |paths| == |objects| && AllFound(objects) && Injective(digest)
    ensures Differing(paths, objects, tree, digest) == []
       <==> forall i | 0 <= i < |paths| :: paths[i] in tree && tree[paths[i]] == objects[i].data
    decreases paths
  {
    if paths != [] {
      NoneDiffers(paths[1..], objects[1..], tree, digest);
      assert forall i | 1 <= i < |paths| :: paths[i] == paths[1..][i - 1] && objects[i] == objects[1..][i - 1];
    }
  }
}
