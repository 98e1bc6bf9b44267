/** The float32 vector codec: each element is its IEEE 754 binary32 bit pattern,
    stored in a blob as 4 little-endian bytes; vectors are also rendered as text. */
module VectorF32 {
  import opened Common
  import opened Text
  import opened VectorTypes

  /** Column values as the SQL functions see them. */
  datatype SqlValue = Null | Integer(i: int) | Float(f: real) | Text(s: string) | Blob(b: seq<bv8>)

  /** The 4 bytes of an element, least significant first. */
  function EncodeF32(x: bv32): (r: seq<bv8>)
    ensures |r| == 4
  {
    [(x & 0xFF) as bv8, ((x >> 8) & 0xFF) as bv8, ((x >> 16) & 0xFF) as bv8, ((x >> 24) & 0xFF) as bv8]
  }

  /** The element whose bytes, least significant first, are `b`. */
  function DecodeF32(b: seq<bv8>): bv32
    requires |b| == 4
  {
    (b[0] as bv32) | ((b[1] as bv32) << 8) | ((b[2] as bv32) << 16) | ((b[3] as bv32) << 24)
  }

  /** Decoding the bytes of an element gives the element back. */
  lemma DecodeEncodeF32(x: bv32)
    ensures DecodeF32(EncodeF32(x)) == x
  {
  }

  lemma BytesOfAssembled(b0: bv8, b1: bv8, b2: bv8, b3: bv8)
    ensures var x := (b0 as bv32) | ((b1 as bv32) << 8) | ((b2 as bv32) << 16) | ((b3 as bv32) << 24);
      (x & 0xFF) as bv8 == b0 && ((x >> 8) & 0xFF) as bv8 == b1 &&
      ((x >> 16) & 0xFF) as bv8 == b2 && ((x >> 24) & 0xFF) as bv8 == b3
  {
  }

  /** Every 4-byte group is the encoding of the element it decodes to. */
  lemma EncodeDecodeF32(b: seq<bv8>)
    requires |b| == 4
    ensures EncodeF32(DecodeF32(b)) == b
  {
    BytesOfAssembled(b[0], b[1], b[2], b[3]);
  }

  /** The blob layout of a sequence of elements: element i in bytes [4i, 4i + 4). */
  function EncodeAll(xs: seq<bv32>): (r: seq<bv8>)
    ensures |r| == 4 * |xs|
    decreases |xs|
  {
    if |xs| == 0 then [] else EncodeAll(xs[..|xs| - 1]) + EncodeF32(xs[|xs| - 1])
  }

  /** The elements held by the whole 4-byte groups of a blob; trailing bytes are ignored. */
  function DecodeAll(b: seq<bv8>): (r: seq<bv32>)
    ensures |r| == |b| / 4
  {
    seq(|b| / 4, i requires 0 <= i < |b| / 4 => DecodeF32(b[4 * i..4 * i + 4]))
  }

  lemma {:induction false} EncodeAllGroup(xs: seq<bv32>, i: nat)
    requires i < |xs|
    ensures EncodeAll(xs)[4 * i..4 * i + 4] == EncodeF32(xs[i])
    decreases |xs|
  {
    var init := xs[..|xs| - 1];
    if i < |xs| - 1 {
      EncodeAllGroup(init, i);
      assert EncodeAll(xs)[4 * i..4 * i + 4] == EncodeAll(init)[4 * i..4 * i + 4];
    } else {
      assert EncodeAll(xs)[4 * i..4 * i + 4] == EncodeAll(xs)[4 * |init|..];
    }
  }

  lemma EncodeAllSnoc(xs: seq<bv32>, x: bv32)
    ensures EncodeAll(xs + [x]) == EncodeAll(xs) + EncodeF32(x)
  {
    assert (xs + [x])[..|xs|] == xs;
  }

  /** Decoding a serialized blob restores every element's bit pattern. */
  lemma DecodeEncodeAll(xs: seq<bv32>)
    ensures DecodeAll(EncodeAll(xs)) == xs
  {
    var b := EncodeAll(xs);
    forall i | 0 <= i < |xs| ensures DecodeAll(b)[i] == xs[i] {
      EncodeAllGroup(xs, i);
      DecodeEncodeF32(xs[i]);
      assert DecodeAll(b)[i] == DecodeF32(b[4 * i..4 * i + 4]);
    }
  }

  /** Re-encoding the first `n` decoded elements reproduces the first `n` groups. */
  lemma {:induction false} EncodeDecodeGroups(b: seq<bv8>, n: nat)
    requires n <= |b| / 4
    ensures EncodeAll(DecodeAll(b)[..n]) == b[..4 * n]
  {
    if n > 0 {
      var xs := DecodeAll(b)[..n];
      EncodeDecodeGroups(b, n - 1);
      assert xs[..n - 1] == DecodeAll(b)[..n - 1];
      assert xs[n - 1] == DecodeF32(b[4 * (n - 1)..4 * n]);
      EncodeDecodeF32(b[4 * (n - 1)..4 * n]);
      assert b[..4 * n] == b[..4 * (n - 1)] + b[4 * (n - 1)..4 * n];
    }
  }

  /** Re-encoding decoded elements reproduces the blob up to its last whole group. */
  lemma EncodeDecodeAll(b: seq<bv8>)
    ensures EncodeAll(DecodeAll(b)) == b[..|b| / 4 * 4]
  {
    EncodeDecodeGroups(b, |b| / 4);
    assert DecodeAll(b)[..|b| / 4] == DecodeAll(b);
  }

  /** The elements of a vector, read through its storage: an owned buffer holds the
      patterns themselves, a borrowed blob holds their 4-byte encodings. */
  function Elements(v: Vector): (r: seq<bv32>)
    requires v.dims <= v.data.Capacity()
    reads v, v.data.Memory()
    ensures |r| == v.dims
  {
    if v.data.Owned? then v.data.elems[..v.dims]
    else DecodeAll(v.data.bytes[..4 * v.dims])
  }

  /** `serializeF32`: writes the 4 bytes of `x` at `mem[at..at + 4]` and reports how many. */
  method SerializeF32(mem: array<bv8>, at: nat, x: bv32) returns (n: nat)
    requires at + 4 <= mem.Length
    modifies mem
    ensures n == 4
    ensures mem[..] == old(mem[..at]) + EncodeF32(x) + old(mem[at + 4..])
  {
    var bytes := EncodeF32(x);
    mem[at] := bytes[0];
    mem[at + 1] := bytes[1];
    mem[at + 2] := bytes[2];
    mem[at + 3] := bytes[3];
    n := 4;
    assert mem[at..at + 4] == bytes;
    assert mem[..] == mem[..at] + mem[at..at + 4] + mem[at + 4..];
  }

  /** One turn of the serialization loop appends the next element's group. */
  lemma SerializeStep(xs: seq<bv32>, i: nat, initial: seq<bv8>, before: seq<bv8>, after: seq<bv8>)
    requires i < |xs| && 4 * i + 4 <= |initial|
    requires before == EncodeAll(xs[..i]) + initial[4 * i..]
    requires after == before[..4 * i] + EncodeF32(xs[i]) + before[4 * i + 4..]
    ensures after == EncodeAll(xs[..i + 1]) + initial[4 * (i + 1)..]
  {
    assert before[..4 * i] == EncodeAll(xs[..i]);
    assert before[4 * i + 4..] == initial[4 * i + 4..];
    EncodeAllSnoc(xs[..i], xs[i]);
    assert xs[..i + 1] == xs[..i] + [xs[i]];
  }

  /** The loop of `vectorF32SerializeToBlob`: the groups of `xs`, one after the other,
      from the start of `blob`; the bytes after them are left alone. */
  method WriteGroups(blob: array<bv8>, xs: seq<bv32>) returns (len: nat)
    requires 4 * |xs| <= blob.Length
    modifies blob
    ensures len == 4 * |xs|
    ensures blob[..] == EncodeAll(xs) + old(blob[..])[len..]
  {
    len := 0;
    var i := 0;
    while i < |xs|
      invariant 0 <= i <= |xs| && len == 4 * i
      invariant blob[..] == EncodeAll(xs[..i]) + old(blob[..])[len..]
    {
      ghost var before := blob[..];
      var n := SerializeF32(blob, len, xs[i]);
      SerializeStep(xs, i, old(blob[..]), before, blob[..]);
      len := len + n;
      i := i + 1;
    }
    assert xs[..i] == xs;
  }

  /** `vectorF32SerializeToBlob`: writes element i of `v` to bytes [4i, 4i + 4) of `blob`
      and returns the number of bytes written; the caller provides room for them all. */
  method SerializeToBlob(v: Vector, blob: array<bv8>, blobSz: nat) returns (len: nat)
    requires v.dims <= v.data.Capacity()
    requires blobSz >= v.dims * 4 && blobSz <= blob.Length
    requires blob != v.data.Memory()
    modifies blob
    ensures len == DataSize(Float32, v.dims)
    ensures blob[..len] == EncodeAll(Elements(v))
    ensures blob[len..] == old(blob[..])[len..]
  {
    var xs := Elements(v);
    len := WriteGroups(blob, xs);
    assert blob[..len] == (EncodeAll(xs) + old(blob[..])[len..])[..len];
  }

  /** `vectorF32DeserializeFromBlob`: the dimension count becomes the number of whole
      4-byte groups in `blob`, each group becomes one element, trailing bytes are
      ignored, and the number of bytes consumed is returned. */
  method DeserializeFromBlob(v: Vector, blob: seq<bv8>) returns (consumed: nat)
    requires v.vtype == Float32 && v.data.Owned? && |blob| / 4 <= v.data.elems.Length
    modifies v, v.data.elems
    ensures v.data == old(v.data) && v.vtype == old(v.vtype) && v.isStatic == old(v.isStatic)
    ensures v.dims == |blob| / 4 && consumed == DataSize(Float32, v.dims)
    ensures Elements(v) == DecodeAll(blob)
    ensures v.data.elems[v.dims..] == old(v.data.elems[..])[v.dims..]
  {
    var elems := v.data.elems;
    v.dims := |blob| / 4;
    var i := 0;
    while i < v.dims
      invariant 0 <= i <= v.dims && v.dims == |blob| / 4
      invariant v.data == Owned(elems) && v.vtype == old(v.vtype) && v.isStatic == old(v.isStatic)
      invariant forall j :: 0 <= j < i ==> elems[j] == DecodeF32(blob[4 * j..4 * j + 4])
      invariant elems[v.dims..] == old(elems[..])[v.dims..]
    {
      elems[i] := DecodeF32(blob[4 * i..4 * i + 4]);
      i := i + 1;
    }
    consumed := DataSize(v.vtype, v.dims);
  }

  /** Why a blob is refused as a float32 vector. */
  datatype BlobError = NotABlob | ZeroLength | PartialElement | TooLarge

  /** The elements a value denotes as a float32 vector blob, or why it is refused;
      a zero-length blob reads back as a null pointer and is refused. */
  function ParseBlobSpec(arg: SqlValue): Result<seq<bv32>, BlobError>
  {
    if !arg.Blob? then Err(NotABlob)
    else if |arg.b| == 0 then Err(ZeroLength)
    else if |arg.b| % 4 != 0 then Err(PartialElement)
    else if |arg.b| / 4 > MAX_VECTOR_SZ then Err(TooLarge)
    else Ok(DecodeAll(arg.b))
  }

  /** A nonempty sequence of at most `MAX_VECTOR_SZ` elements serialized to a blob is
      accepted and decoded back to the same elements; every accepted blob is exactly
      the encoding of the elements it decodes to. */
  lemma ParseBlobRoundTrip(xs: seq<bv32>, b: seq<bv8>)
    ensures 1 <= |xs| <= MAX_VECTOR_SZ ==> ParseBlobSpec(Blob(EncodeAll(xs))) == Ok(xs)
    ensures ParseBlobSpec(Blob(b)).Ok? ==>
      1 <= |ParseBlobSpec(Blob(b)).value| <= MAX_VECTOR_SZ &&
      EncodeAll(ParseBlobSpec(Blob(b)).value) == b
  {
    if 1 <= |xs| <= MAX_VECTOR_SZ {
      DecodeEncodeAll(xs);
      assert |EncodeAll(xs)| / 4 == |xs|;
    }
    if ParseBlobSpec(Blob(b)).Ok? {
      EncodeDecodeAll(b);
      assert |b| / 4 * 4 == |b|;
      assert b[..|b|] == b;
    }
  }

  /** `vectorF32ParseBlob`: validates the value as a float32 blob and, if valid, decodes
      it into `v`, returning the dimension count; otherwise returns -1 and the reason,
      leaving `v` as it was. */
  method ParseBlob(arg: SqlValue, v: Vector) returns (rc: int, err: Option<BlobError>)
    requires v.data.Owned? && v.data.elems.Length >= MAX_VECTOR_SZ
    modifies v, v.data.elems
    ensures v.data == old(v.data) && v.vtype == old(v.vtype) && v.isStatic == old(v.isStatic)
    ensures ParseBlobSpec(arg).Err? ==>
      rc == -1 && err == Some(ParseBlobSpec(arg).error) &&
      v.dims == old(v.dims) && v.data.elems[..] == old(v.data.elems[..])
    ensures ParseBlobSpec(arg).Ok? ==>
      err == None && rc == v.dims == |ParseBlobSpec(arg).value| &&
      Elements(v) == ParseBlobSpec(arg).value &&
      v.data.elems[v.dims..] == old(v.data.elems[..])[v.dims..]
  {
    if !arg.Blob? {
      return -1, Some(NotABlob);
    }
    var blob := arg.b;
    if |blob| == 0 {
      return -1, Some(ZeroLength);
    }
    var vectorBytes := |blob|;
    if vectorBytes % 4 != 0 {
      return -1, Some(PartialElement);
    }
    var len := vectorBytes / 4;
    if len > MAX_VECTOR_SZ {
      return -1, Some(TooLarge);
    }
    var elems := v.data.elems;
    var i := 0;
    while i < len
      invariant 0 <= i <= len && v.data == Owned(elems) && v.dims == old(v.dims)
      invariant v.vtype == old(v.vtype) && v.isStatic == old(v.isStatic)
      invariant forall j :: 0 <= j < i ==> elems[j] == DecodeF32(blob[4 * j..4 * j + 4])
      invariant elems[len..] == old(elems[..])[len..]
    {
      elems[i] := DecodeF32(blob[4 * i..4 * i + 4]);
      i := i + 1;
    }
    v.dims := len;
    rc, err := len, None;
  }

  /** `vectorF32InitFromBlob`: the vector points into `blob` rather than copying it; its
      dimension count is the number of whole 4-byte groups the first `blobSz` bytes hold. */
  method InitFromBlob(p: Vector, blob: array<bv8>, blobSz: nat)
    requires blobSz <= blob.Length
    modifies p
    ensures p.dims == blobSz / 4 && p.data == Borrowed(blob)
    ensures p.vtype == old(p.vtype) && p.isStatic == old(p.isStatic)
    ensures Elements(p) == DecodeAll(blob[..blobSz])
  {
    p.dims := blobSz / 4;
    p.data := Borrowed(blob);
    assert blob[..4 * p.dims] == blob[..blobSz][..4 * p.dims];
    assert DecodeAll(blob[..4 * p.dims]) == DecodeAll(blob[..blobSz]) by {
      var d := blob[..blobSz];
      forall i | 0 <= i < |d| / 4
        ensures blob[..4 * p.dims][4 * i..4 * i + 4] == d[4 * i..4 * i + 4]
      {
      }
    }
  }

  /** `vectorF32Serialize`: the value of a vector as a blob of `DataSize` bytes. */
  method Serialize(v: Vector) returns (r: SqlValue)
    requires v.dims <= v.data.Capacity()
    ensures r == Blob(EncodeAll(Elements(v)))
  {
    var blobSz := DataSize(Float32, v.dims);
    var blob := new bv8[blobSz];
    var len := SerializeToBlob(v, blob, blobSz);
    r := Blob(blob[..]);
  }

  /** Longest text `snprintf` leaves in the 32-byte buffer of one element. */
  const SINGLE_FLOAT_CHAR_LIMIT: nat := 32

  /** The text of one element as `formatF32` leaves it: `fmt` stands for the C
      formatting, cut to the 31 characters the buffer holds before its terminator. */
  function FormatF32(fmt: bv32 -> string, x: bv32): (r: string)
    ensures |r| < SINGLE_FLOAT_CHAR_LIMIT
  {
    var s := fmt(x);
    if |s| < SINGLE_FLOAT_CHAR_LIMIT then s else s[..SINGLE_FLOAT_CHAR_LIMIT - 1]
  }

  /** The element texts of a vector, in order. */
  function Formatted(fmt: bv32 -> string, xs: seq<bv32>): (r: seq<string>)
    ensures |r| == |xs|
  {
    seq(|xs|, i requires 0 <= i < |xs| => FormatF32(fmt, xs[i]))
  }

  /** Every part followed by a comma. */
  function Terminated(parts: seq<string>): string
    decreases |parts|
  {
    if |parts| == 0 then [] else Terminated(parts[..|parts| - 1]) + parts[|parts| - 1] + ","
  }

  lemma {:induction false} TerminatedJoin(parts: seq<string>)
    requires |parts| >= 1
    ensures Terminated(parts) == Join(parts, ',') + ","
    decreases |parts|
  {
    if |parts| > 1 {
      TerminatedJoin(parts[..|parts| - 1]);
    }
  }

  /** The text `vectorF32Deserialize` produces, as written: a bracketed comma list of the
      element texts, except that a vector without elements comes out as a lone `]`. */
  function RenderAsWritten(fmt: bv32 -> string, xs: seq<bv32>): string
  {
    if |xs| == 0 then "]" else BracketList(Formatted(fmt, xs))
  }

  /** The evidently intended text: a bracketed comma list, `[]` for no elements. */
  function Render(fmt: bv32 -> string, xs: seq<bv32>): string
  {
    BracketList(Formatted(fmt, xs))
  }

  /** One turn of the loop of `vectorF32Deserialize`: `memcpy` of an element
      text into the output buffer at `at`, then the comma after it; returns the
      next write position. */
  method AppendElement(z: array<char>, at: nat, tmp: string) returns (next: nat)
    requires at + |tmp| < z.Length
    modifies z
    ensures next == at + |tmp| + 1
    ensures z[..next] == old(z[..at]) + tmp + ","
  {
    forall k | 0 <= k < |tmp| {
      z[at + k] := tmp[k];
    }
    next := at + |tmp|;
    z[next] := ',';
    next := next + 1;
    assert z[..next] == z[..at] + z[at..at + |tmp|] + [z[at + |tmp|]];
  }

  /** Terminating one more part appends it and its comma. */
  lemma TerminatedSnoc(parts: seq<string>, i: nat)
    requires i < |parts|
    ensures Terminated(parts[..i + 1]) == Terminated(parts[..i]) + parts[i] + ","
  {
    assert parts[..i + 1][..i] == parts[..i];
  }

  /** The loop of `vectorF32Deserialize`: an opening bracket, then each element text
      followed by a comma, written into `z` from position 0; returns the write position,
      which stays within `2 + dims * 33` characters. */
  method WriteElements(z: array<char>, fmt: bv32 -> string, xs: seq<bv32>) returns (bufIdx: nat)
    requires z.Length == 2 + |xs| * (SINGLE_FLOAT_CHAR_LIMIT + 1)
    modifies z
    ensures bufIdx <= 1 + |xs| * (SINGLE_FLOAT_CHAR_LIMIT + 1)
    ensures z[..bufIdx] == "[" + Terminated(Formatted(fmt, xs))
  {
    var parts := Formatted(fmt, xs);
    bufIdx := 0;
    z[bufIdx] := '[';
    bufIdx := bufIdx + 1;
    var i := 0;
    while i < |xs|
      invariant 0 <= i <= |xs|
      invariant bufIdx <= 1 + i * (SINGLE_FLOAT_CHAR_LIMIT + 1)
      invariant z[..bufIdx] == "[" + Terminated(parts[..i])
    {
      var tmp := FormatF32(fmt, xs[i]);
      bufIdx := AppendElement(z, bufIdx, tmp);
      TerminatedSnoc(parts, i);
      i := i + 1;
    }
    assert parts[..i] == parts;
  }

  /** Overwriting the last comma of the written text with `]` closes the list. */
  lemma CloseList(parts: seq<string>)
    requires |parts| >= 1
    ensures var written := "[" + Terminated(parts);
      |written| >= 2 && written[..|written| - 1] + "]" == BracketList(parts)
  {
    TerminatedJoin(parts);
    var written := "[" + Terminated(parts);
    assert written == "[" + Join(parts, ',') + ",";
    assert written[..|written| - 1] == "[" + Join(parts, ',');
  }

  /** Writing `]` at `at` keeps the text before it. */
  method CloseAt(z: array<char>, at: nat) returns (next: nat)
    requires at < z.Length
    modifies z
    ensures next == at + 1 && z[..next] == old(z[..at]) + "]"
  {
    z[at] := ']';
    next := at + 1;
    assert z[..next] == z[..at] + [z[at]];
  }

  /** `vectorF32Deserialize`, as written: after the loop the write position is stepped
      back one place, over the last comma or, when there are no elements, over the
      opening bracket, and the closing bracket is written there. */
  method DeserializeAsWritten(v: Vector, fmt: bv32 -> string) returns (text: string)
    requires v.dims <= MAX_VECTOR_SZ && v.dims <= v.data.Capacity()
    ensures text == RenderAsWritten(fmt, Elements(v))
    ensures |text| <= 2 + v.dims * (SINGLE_FLOAT_CHAR_LIMIT + 1)
  {
    text := WriteTextAsWritten(fmt, Elements(v));
  }

  /** The buffer work of `DeserializeAsWritten`, on the elements read out. */
  method WriteTextAsWritten(fmt: bv32 -> string, xs: seq<bv32>) returns (text: string)
    ensures text == RenderAsWritten(fmt, xs)
    ensures |text| <= 2 + |xs| * (SINGLE_FLOAT_CHAR_LIMIT + 1)
  {
    var bufSz := 2 + |xs| * (SINGLE_FLOAT_CHAR_LIMIT + 1);
    var z := new char[bufSz];
    var bufIdx := WriteElements(z, fmt, xs);
    ghost var written := z[..bufIdx];
    bufIdx := bufIdx - 1;
    bufIdx := CloseAt(z, bufIdx);
    text := z[..bufIdx];
    assert text == written[..|written| - 1] + "]";
    if |xs| > 0 {
      CloseList(Formatted(fmt, xs));
    } else {
      assert written == "[";
    }
  }

  /** `vectorF32Deserialize` with the step back taken only over a trailing comma, so
      a vector without elements comes out as `[]`. */
  method Deserialize(v: Vector, fmt: bv32 -> string) returns (text: string)
    requires v.dims <= MAX_VECTOR_SZ && v.dims <= v.data.Capacity()
    ensures text == Render(fmt, Elements(v))
    ensures |text| <= 2 + v.dims * (SINGLE_FLOAT_CHAR_LIMIT + 1)
  {
    text := WriteText(fmt, Elements(v));
  }

  /** The buffer work of `Deserialize`, on the elements read out. */
  method WriteText(fmt: bv32 -> string, xs: seq<bv32>) returns (text: string)
    ensures text == Render(fmt, xs)
    ensures |text| <= 2 + |xs| * (SINGLE_FLOAT_CHAR_LIMIT + 1)
  {
    var bufSz := 2 + |xs| * (SINGLE_FLOAT_CHAR_LIMIT + 1);
    var z := new char[bufSz];
    var bufIdx := WriteElements(z, fmt, xs);
    ghost var written := z[..bufIdx];
    if |xs| > 0 {
      bufIdx := bufIdx - 1;
    }
    bufIdx := CloseAt(z, bufIdx);
    text := z[..bufIdx];
    if |xs| > 0 {
      assert text == written[..|written| - 1] + "]";
      CloseList(Formatted(fmt, xs));
    } else {
      assert text == "[]";
    }
  }

  /** No element text contains a comma (`%lld` and `%.6e` never produce one). */
  ghost predicate CommaFree(fmt: bv32 -> string)
  {
    forall x :: ',' !in fmt(x)
  }

  /** The rendering is a bracketed list with exactly one comma between neighbouring
      elements, and splitting its inside at the commas gives the element texts back. */
  lemma RenderShape(fmt: bv32 -> string, xs: seq<bv32>)
    requires CommaFree(fmt) && |xs| >= 1
    ensures var t := Render(fmt, xs);
      |t| >= 2 && t[0] == '[' && t[|t| - 1] == ']' &&
      Occurrences(t, ',') == |xs| - 1 &&
      Split(t[1..|t| - 1], ',') == Formatted(fmt, xs)
  {
    var parts := Formatted(fmt, xs);
    assert NoneContains(parts, ',') by {
      forall i | 0 <= i < |parts| ensures ',' !in parts[i] {
        var s := fmt(xs[i]);
        if |s| >= SINGLE_FLOAT_CHAR_LIMIT {
          assert forall c :: c in s[..SINGLE_FLOAT_CHAR_LIMIT - 1] ==> c in s;
        }
      }
    }
    var body := Join(parts, ',');
    var t := Render(fmt, xs);
    assert t == "[" + body + "]";
    assert t[1..|t| - 1] == body;
    SplitJoin(parts, ',');
    JoinSeparatorCount(parts, ',');
    OccurrencesAppend("[" + body, "]", ',');
    OccurrencesAppend("[", body, ',');
    OccurrencesAbsent("[", ',');
    OccurrencesAbsent("]", ',');
  }
}
