/** The vector object shared by the SQL vector functions and the float32 codec:
    its element type, its dimension count, its element storage and its flags. */
module VectorTypes {

  /** The element types a vector column can declare. */
  datatype VectorType = Float32 | Float64

  /** Largest number of elements a vector may hold. */
  const MAX_VECTOR_SZ: nat := 16000

  /** Bytes one element occupies: `sizeof(float)` or `sizeof(double)`. */
  function ElementSize(t: VectorType): nat
  {
    match t
    case Float32 => 4
    case Float64 => 8
  }

  /** Bytes needed for the elements of a vector of type `t` with `dims` elements. */
  function DataSize(t: VectorType, dims: nat): nat
  {
    match t
    case Float32 => dims * 4
    case Float64 => dims * 8
  }

  /** `DataSize` is exact per element: dividing it by the element size gives the
      dimension count back, and `bytes / ElementSize` is the largest dimension count
      whose data fits in `bytes` (the rule the blob decoders use). */
  lemma DataSizeInverse(t: VectorType, dims: nat, bytes: nat)
    ensures DataSize(t, dims) / ElementSize(t) == dims
    ensures DataSize(t, bytes / ElementSize(t)) <= bytes
    ensures bytes < DataSize(t, bytes / ElementSize(t) + 1)
    ensures DataSize(t, dims) <= bytes <==> dims <= bytes / ElementSize(t)
  {
  }

  /** Where the elements live: a buffer the vector owns, holding one 32-bit pattern
      per element, or a blob the vector merely points into (a static vector). */
  datatype Storage = Owned(elems: array<bv32>) | Borrowed(bytes: array<bv8>)
  {
    /** The array the storage designates. */
    function Memory(): object
    {
      if Owned? then elems else bytes
    }

    /** Number of elements the storage can hold. */
    function Capacity(): nat
    {
      if Owned? then elems.Length else bytes.Length / 4
    }
  }

  /** The vector object. */
  class Vector {
    var vtype: VectorType
    var dims: nat
    var data: Storage
    /** `VECTOR_FLAGS_STATIC`: the data is not owned and must not be freed. */
    var isStatic: bool

    /** `vectorAlloc` / `vectorContextAlloc`: a non-static vector with a fresh
        buffer for `dims` elements. */
    constructor Alloc(t: VectorType, dims: nat)
      ensures vtype == t && this.dims == dims && !isStatic
      ensures data.Owned? && fresh(data.elems) && data.elems.Length == dims
    {
      vtype := t;
      this.dims := dims;
      var buffer := new bv32[dims];
      data := Owned(buffer);
      isStatic := false;
    }
  }
}
