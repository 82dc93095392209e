/** The LMCache serializer and deserializer over the CPU backend. */
module Serde {
  import opened Bytes
  import opened Gcm
  import opened Kernels
  import opened CpuSeal
  import opened Aes

  // element_size() of a torch dtype
  datatype Dtype = Dtype(elementSize: nat)

  // MemoryLayoutDesc
  datatype Layout = Layout(shapes: seq<seq<nat>>, dtypes: seq<Dtype>)

  datatype Exception = ValueError | RuntimeError | InvalidTag

  datatype Result<T> = Ok(value: T) | Err(error: Exception)

  // ---- Buffers of a layout ----

  function Concat(rows: seq<seq<byte>>): seq<byte> {
    if rows == [] then [] else Concat(rows[..|rows| - 1]) + rows[|rows| - 1]
  }

  // The contiguous bytes of one tensor: a scalar, or as many rows as the first dimension says
  ghost predicate IsTensor(bytes: seq<byte>, shape: seq<nat>, dtype: Dtype)
    decreases |shape|
  {
    if shape == [] then |bytes| == dtype.elementSize
    else exists rows: seq<seq<byte>> ::
      |rows| == shape[0] && Concat(rows) == bytes && forall row <- rows :: IsTensor(row, shape[1..], dtype)
  }

  // The tensors of a layout, one after the other
  ghost predicate HasLayout(buffer: seq<byte>, layout: Layout) {
    && |layout.shapes| == |layout.dtypes|
    && exists tensors: seq<seq<byte>> ::
         && |tensors| == |layout.shapes| && Concat(tensors) == buffer
         && forall i :: 0 <= i < |tensors| ==> IsTensor(tensors[i], layout.shapes[i], layout.dtypes[i])
  }

  // ---- _plaintext_bytes ----

  function Elements(shape: seq<nat>): nat {
    if shape == [] then 1 else Elements(shape[..|shape| - 1]) * shape[|shape| - 1]
  }

  function LayoutBytes(shapes: seq<seq<nat>>, dtypes: seq<Dtype>): nat
    requires |shapes| == |dtypes|
  {
    var n := |shapes|;
    if n == 0 then 0
    else LayoutBytes(shapes[..n - 1], dtypes[..n - 1]) + Elements(shapes[n - 1]) * dtypes[n - 1].elementSize
  }

  method PlaintextBytes(layout: Layout) returns (r: Result<nat>)
    ensures r.Ok? <==> |layout.shapes| == |layout.dtypes|
    ensures r.Err? ==> r.error == ValueError
    ensures r.Ok? ==> r.value == LayoutBytes(layout.shapes, layout.dtypes)
    ensures r.Ok? ==> forall buffer: seq<byte> :: HasLayout(buffer, layout) ==> |buffer| == r.value
  {
    var total := 0;
    var i := 0;
    while i < |layout.shapes| && i < |layout.dtypes|
      invariant i <= |layout.shapes| && i <= |layout.dtypes|
      invariant total == LayoutBytes(layout.shapes[..i], layout.dtypes[..i])
    {
      var shape := layout.shapes[i];
      var n := 1;
      for d := 0 to |shape|
        invariant n == Elements(shape[..d])
      {
        assert shape[..d + 1][..d] == shape[..d];
        n := n * shape[d];
      }
      assert shape[..|shape|] == shape;
      assert layout.shapes[..i + 1][..i] == layout.shapes[..i] && layout.dtypes[..i + 1][..i] == layout.dtypes[..i];
      total := total + n * layout.dtypes[i].elementSize;
      i := i + 1;
    }
    if i < |layout.shapes| || i < |layout.dtypes| {
      return Err(ValueError);
    }
    assert layout.shapes[..i] == layout.shapes && layout.dtypes[..i] == layout.dtypes;
    forall buffer: seq<byte> | HasLayout(buffer, layout) ensures |buffer| == total { LayoutSize(buffer, layout); }
    r := Ok(total);
  }

  lemma {:induction false} EqualRows(rows: seq<seq<byte>>, size: nat)
    requires forall row <- rows :: |row| == size
    ensures |Concat(rows)| == |rows| * size
  {
    if rows != [] {
      EqualRows(rows[..|rows| - 1], size);
      MulStep(|rows|, size);
    }
  }

  lemma MulStep(n: nat, size: nat)
    requires n > 0
    ensures (n - 1) * size + size == n * size
  {}

  lemma {:induction false} ElementsFront(shape: seq<nat>)
    requires shape != []
    ensures Elements(shape) == shape[0] * Elements(shape[1..])
  {
    if |shape| > 1 {
      var front, last := shape[..|shape| - 1], shape[|shape| - 1];
      ElementsFront(front);
      assert front[1..] == shape[1..][..|shape| - 2];
      MulAssociative(shape[0], Elements(front[1..]), last);
    } else {
      assert Elements(shape[..0]) == 1 && Elements(shape[1..]) == 1;
    }
  }

  lemma NoDimensions()
    ensures Elements([]) == 1
  {}

  lemma {:induction false} TensorSize(bytes: seq<byte>, shape: seq<nat>, dtype: Dtype)
    requires IsTensor(bytes, shape, dtype)
    ensures |bytes| == Elements(shape) * dtype.elementSize
    decreases |shape|
  {
    hide Elements, Concat;
    NoDimensions();
    if shape != [] {
      var rest, size := shape[1..], Elements(shape[1..]) * dtype.elementSize;
      var rows: seq<seq<byte>> :| |rows| == shape[0] && Concat(rows) == bytes
        && forall row <- rows :: IsTensor(row, rest, dtype);
      forall row <- rows ensures |row| == size { TensorSize(row, rest, dtype); }
      EqualRows(rows, size);
      ElementsFront(shape);
      MulAssociative(shape[0], Elements(rest), dtype.elementSize);
    }
  }

  lemma MulAssociative(a: nat, b: nat, c: nat)
    ensures a * (b * c) == a * b * c
  {}

  lemma {:induction false} TensorsSize(tensors: seq<seq<byte>>, shapes: seq<seq<nat>>, dtypes: seq<Dtype>)
    requires |tensors| == |shapes| == |dtypes|
    requires forall i :: 0 <= i < |tensors| ==> IsTensor(tensors[i], shapes[i], dtypes[i])
    ensures |Concat(tensors)| == LayoutBytes(shapes, dtypes)
  {
    hide IsTensor;
    var n := |tensors|;
    if n > 0 {
      TensorsSize(tensors[..n - 1], shapes[..n - 1], dtypes[..n - 1]);
      TensorSize(tensors[n - 1], shapes[n - 1], dtypes[n - 1]);
    }
  }

  lemma LayoutSize(buffer: seq<byte>, layout: Layout)
    requires HasLayout(buffer, layout)
    ensures |buffer| == LayoutBytes(layout.shapes, layout.dtypes)
  {
    hide IsTensor, LayoutBytes, Concat;
    var tensors: seq<seq<byte>> :|
      && |tensors| == |layout.shapes| && Concat(tensors) == buffer
      && forall i :: 0 <= i < |tensors| ==> IsTensor(tensors[i], layout.shapes[i], layout.dtypes[i]);
    TensorsSize(tensors, layout.shapes, layout.dtypes);
  }

  // estimate_serialized_size
  method EstimateSerializedSize(layout: Layout) returns (r: Result<nat>)
    ensures r.Ok? <==> |layout.shapes| == |layout.dtypes|
    ensures r.Err? ==> r.error == ValueError
    ensures r.Ok? ==> forall buffer: seq<byte> :: HasLayout(buffer, layout) ==> r.value == |buffer| + 29
  {
    var n := PlaintextBytes(layout);
    r := if n.Ok? then Ok(n.value + OVERHEAD) else n;
  }

  // ---- serialize and deserialize ----

  type Keys = string -> seq<byte>

  // The native library gets through n bytes
  ghost predicate Healthy(ctx: Context?, n: nat)
    reads ctx
  {
    ctx != null && n <= MAX_BYTES && ctx.healthy >= 6 + Chunks(n)
  }

  // NativeAesGcmSerializer.serialize; a key comes from the provider by cache salt
  method Serialize(keys: Keys, salt: string, src: seq<byte>, dst: array<byte>, random: Option<Iv>, ctx: Context?)
      returns (r: Result<nat>)
    modifies ctx, dst
    ensures r == Err(ValueError) <==> dst.Length < |src| + 29 || |keys(salt)| != 16 || src == []
    ensures r.Err? ==> r.error in {ValueError, RuntimeError}
    ensures r == Err(ValueError) ==> dst[..] == old(dst[..])
    ensures r.Ok? <==> r != Err(ValueError) && random.Some? && old(Healthy(ctx, |src|))
    ensures r.Ok? ==> r.value == |src| + 29 && |keys(salt)| == 16 && dst[0] == 1
    ensures r.Ok? ==> ctx.healthy == old(ctx.healthy) - 6 - Chunks(|src|)
    ensures r.Ok? ==> dst[..] == SealFrame(Aes128(keys(salt)), random.value, src) + old(dst[|src| + OVERHEAD..])
  {
    hide SealFrame, Aes128, Chunks;
    var frameLen := |src| + OVERHEAD;
    if dst.Length < frameLen {
      return Err(ValueError);
    }
    var dek := keys(salt);
    if |dek| != 16 {
      return Err(ValueError);
    }
    if |src| == 0 {
      return Err(ValueError);
    }
    var rc := Seal(Some(Aes128(dek)), Some(src), dst, dst.Length, random, ctx);
    r := if rc != 0 then Err(RuntimeError) else Ok(frameLen);
    assert dst[..] == dst[..frameLen] + dst[frameLen..];
  }

  // What the native library answers to a frame of version 1 for n bytes
  function NativeOpen(key: BlockBytes, src: seq<byte>, n: nat, healthy: nat, short: bool): int
    requires n + OVERHEAD <= |src|
  {
    hide Tag;
    OpenCode(healthy, n, Accepts(Aes128(key), src, n), short)
  }

  // NativeAesGcmDeserializer.deserialize; the frame length comes from the destination, not from the source
  method Deserialize(keys: Keys, salt: string, src: seq<byte>, dst: array<byte>, ctx: Context?) returns (r: Result<()>)
    modifies ctx, dst
    ensures r.Ok? <==> (
      && dst.Length + OVERHEAD <= |src| && |keys(salt)| == 16 && dst.Length > 0 && old(Healthy(ctx, dst.Length))
      && Accepts(Aes128(keys(salt)), src, dst.Length))
    ensures r.Ok? ==> dst[..] == Plaintext(Aes128(keys(salt)), src, dst.Length)
    ensures r == Err(InvalidTag) <==> (
      && dst.Length + 29 <= |src| && |keys(salt)| == 16 && dst.Length > 0 && src[0] == 1 && ctx != null
      && NativeOpen(keys(salt), src, dst.Length, old(ctx.healthy), ctx.short) == -11)
    ensures |src| < dst.Length + 29 || |keys(salt)| != 16 || dst.Length == 0 || src[0] != 1 ==>
      r == Err(ValueError) && dst[..] == old(dst[..])
    ensures r == Err(InvalidTag) ==> dst[..] == Zeros(dst.Length)
    ensures (
      && r != Ok(()) && dst.Length + OVERHEAD <= |src| && |keys(salt)| == 16 && dst.Length > 0
      && src[0] == 1 && old(Healthy(ctx, dst.Length))) ==> r == Err(InvalidTag)
    ensures r.Err? ==> r.error != RuntimeError
  {
    hide SealFrame, Aes128, Chunks, Tag, Crypt;
    var frameLen := dst.Length + OVERHEAD;
    if |src| < frameLen {
      return Err(ValueError);
    }
    var dek := keys(salt);
    if |dek| != 16 {
      return Err(ValueError);
    }
    if dst.Length == 0 {
      return Err(ValueError);
    }
    SameFrameParts(Aes128(dek), src, dst.Length);
    var rc := CpuSeal.Open(Some(Aes128(dek)), Some(src[..frameLen]), dst, dst.Length, ctx);
    if rc == -11 {
      return Err(InvalidTag);
    }
    if rc != 0 {
      return Err(ValueError);
    }
    r := Ok(());
  }

  // Padding behind the frame does not matter
  lemma SameFrameParts(e: Cipher, src: seq<byte>, n: nat)
    requires n + OVERHEAD <= |src|
    ensures src[0] == src[..n + OVERHEAD][0]
    ensures Accepts(e, src[..n + OVERHEAD], n) == Accepts(e, src, n)
    ensures Plaintext(e, src[..n + OVERHEAD], n) == Plaintext(e, src, n)
  {
    hide Tag, Crypt;
    var f := src[..n + OVERHEAD];
    assert FrameIv(f) == FrameIv(src) && FrameBody(f, n) == FrameBody(src, n);
    assert f[13 + n..n + OVERHEAD] == src[13 + n..n + OVERHEAD];
  }

  // A buffer of a layout goes through a slot of the estimated size, however much larger the slot is. In a healthy
  // environment it is stored if and only if it is not empty, the frame then just fits, and it comes back.
  method StoreAndLoad(keys: Keys, salt: string, layout: Layout, buffer: seq<byte>, slack: nat, random: Iv, ctx: Context)
      returns (loaded: array<byte>, stored: Result<nat>)
    requires HasLayout(buffer, layout) && |keys(salt)| == 16 && |buffer| <= MAX_BYTES
    requires ctx.healthy >= 12 + 2 * Chunks(|buffer|)
    modifies ctx
    ensures stored == if buffer != [] then Ok(|buffer| + OVERHEAD) else Err(ValueError)
    ensures |layout.shapes| == |layout.dtypes| && (stored.Ok? <==> LayoutBytes(layout.shapes, layout.dtypes) != 0)
    ensures fresh(loaded) && (stored.Ok? ==> loaded[..] == buffer)
  {
    hide SealFrame, Aes128, Chunks, Tag, Crypt, HasLayout, LayoutBytes;
    var size := EstimateSerializedSize(layout);
    HasLengths(buffer, layout);
    LayoutSize(buffer, layout);
    var slot := new byte[size.value + slack](i => 0);
    stored := Serialize(keys, salt, buffer, slot, Some(random), ctx);
    loaded := new byte[size.value - OVERHEAD](i => 0);
    if stored.Ok? {
      ghost var padding := slot[size.value..];
      assert slot[..] == SealFrame(Aes128(keys(salt)), random, buffer) + padding;
      RoundTrip(Aes128(keys(salt)), random, buffer, padding);
      var r := Deserialize(keys, salt, slot[..], loaded, ctx);
    }
  }

  // A layout of no bytes is given an estimate of 29 bytes that no frame ever fills
  method EmptyLayout(keys: Keys, salt: string, layout: Layout, slot: array<byte>, random: Option<Iv>, ctx: Context?)
      returns (estimate: Result<nat>, stored: Result<nat>)
    requires |layout.shapes| == |layout.dtypes| && LayoutBytes(layout.shapes, layout.dtypes) == 0
    modifies ctx, slot
    ensures HasLayout([], layout)
    ensures estimate == Ok(OVERHEAD)
    ensures stored == Err(ValueError) && slot[..] == old(slot[..])
  {
    hide SealFrame, Aes128, Chunks, HasLayout, LayoutBytes;
    EveryLayoutHasBuffer(layout);
    assert Zeros(0) == [];
    estimate := EstimateSerializedSize(layout);
    stored := Serialize(keys, salt, [], slot, random, ctx);
  }

  // ---- Every layout has a buffer ----

  lemma {:induction false} ConcatZeros(rows: seq<seq<byte>>, size: nat)
    requires forall k :: 0 <= k < |rows| ==> rows[k] == Zeros(size)
    ensures Concat(rows) == Zeros(|rows| * size)
  {
    if rows == [] {
      assert Zeros(0) == [];
    } else {
      ConcatZeros(rows[..|rows| - 1], size);
      MulStep(|rows|, size);
      assert Zeros((|rows| - 1) * size) + Zeros(size) == Zeros(|rows| * size);
    }
  }

  lemma {:induction false} ZeroTensor(shape: seq<nat>, dtype: Dtype)
    ensures IsTensor(Zeros(Elements(shape) * dtype.elementSize), shape, dtype)
    decreases |shape|
  {
    hide Elements, Zeros;
    NoDimensions();
    if shape != [] {
      var size := Elements(shape[1..]) * dtype.elementSize;
      var rows := seq(shape[0], _ => Zeros(size));
      ZeroTensor(shape[1..], dtype);
      ConcatZeros(rows, size);
      ElementsFront(shape);
      MulAssociative(shape[0], Elements(shape[1..]), dtype.elementSize);
      assert |rows| == shape[0] && forall row <- rows :: IsTensor(row, shape[1..], dtype);
    }
  }

  lemma {:induction false} ZeroTensors(shapes: seq<seq<nat>>, dtypes: seq<Dtype>) returns (tensors: seq<seq<byte>>)
    requires |shapes| == |dtypes|
    ensures |tensors| == |shapes| && Concat(tensors) == Zeros(LayoutBytes(shapes, dtypes))
    ensures forall i :: 0 <= i < |tensors| ==> IsTensor(tensors[i], shapes[i], dtypes[i])
  {
    hide IsTensor, Elements;
    var n := |shapes|;
    if n == 0 {
      tensors := [];
    } else {
      var front := ZeroTensors(shapes[..n - 1], dtypes[..n - 1]);
      var size := Elements(shapes[n - 1]) * dtypes[n - 1].elementSize;
      ZeroTensor(shapes[n - 1], dtypes[n - 1]);
      tensors := front + [Zeros(size)];
      assert tensors[..n - 1] == front;
      assert Zeros(LayoutBytes(shapes[..n - 1], dtypes[..n - 1])) + Zeros(size) == Zeros(LayoutBytes(shapes, dtypes));
    }
  }

  // So what is said of all buffers of a layout is said of some
  lemma EveryLayoutHasBuffer(layout: Layout)
    requires |layout.shapes| == |layout.dtypes|
    ensures HasLayout(Zeros(LayoutBytes(layout.shapes, layout.dtypes)), layout)
  {
    hide IsTensor, LayoutBytes, Zeros, Concat;
    var tensors := ZeroTensors(layout.shapes, layout.dtypes);
  }

  lemma HasLengths(buffer: seq<byte>, layout: Layout)
    requires HasLayout(buffer, layout)
    ensures |layout.shapes| == |layout.dtypes|
  {}
}
