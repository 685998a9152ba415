/** The evaluation pipeline, `collect`: for every image identifier, resolve
    and load the image and run the submission's encoder on it; only when every
    image has been encoded, run the decoder on each, clip the reconstruction
    and count the bits. Everything the harness calls but cannot see (the
    `.mat` loader, the submission's `encode`, `header_bits` and `decode` run
    in worker processes, and the external `vlctest`) is a parameter; `None`
    stands for a call that raised. */
module Pipeline {
  import opened Wrappers
  import opened ImageId
  import opened Clip

  /** The fixed competition budget, in bits per image. */
  const BitBudget: int := 40960

  /** What a successful encode produces: payload, header and the header size
      the submission declares for it. */
  datatype EncodeOutput<P, H> = EncodeOutput(vlc: P, header: H, nHeaderBits: int)

  datatype Externals<!P, !H> = Externals(
    pkgDir: string,                       // the directory of the harness package
    loadMatImg: string -> Option<Matrix>, // load_mat_img(fname)
    encode: Matrix -> Option<(P, H)>,     // the submission's encode
    headerBits: H -> Option<int>,         // the submission's header_bits
    decode: (P, H) -> Option<Matrix>,     // the submission's decode
    vlctest: P -> Option<int>,            // None: vlctest raised ValueError
    broadcasts: (Matrix, Matrix) -> bool) // whether numpy can subtract the clipped
                                          // reconstruction from the original; when it
                                          // cannot, the rms line raises ValueError

  /** An image after the first loop of `collect`. */
  datatype Pending<P, H> = Pending(name: string, x: Matrix, enc: EncodeOutput<P, H>)

  /** An image after the second loop: the row `collect` returns. */
  datatype Row<P, H> = Row(
    name: string, x: Matrix, enc: EncodeOutput<P, H>,
    z: Matrix, zActual: Matrix, vlcBits: Option<int>, totalBits: Option<int>)

  /** Which call raised out of `collect`, aborting it: loading an image, its
      encoding, its decoding, or the comparison of the clipped reconstruction
      with the original for the rms. */
  datatype Stage = LoadImage | RunEncoder | RunDecoder | CompareImages

  /** The stages of the first loop of `collect`. */
  predicate FirstLoop(s: Stage)
  {
    s == LoadImage || s == RunEncoder
  }

  datatype Abort = Abort(stage: Stage, index: nat)

  /** A call that touches an image, by image index: loading it, or running the
      encoder or the decoder on it in a worker process. */
  datatype Call = LoadCall(index: nat) | EncodeCall(index: nat) | DecodeCall(index: nat)

  /** `encode_process`: encode, then ask for the header's size. */
  function EncodeProcess<P, H>(ext: Externals<P, H>, x: Matrix): Option<EncodeOutput<P, H>>
  {
    match ext.encode(x)
    case None => None
    case Some(out) =>
      match ext.headerBits(out.1)
      case None => None
      case Some(h) => Some(EncodeOutput(out.0, out.1, h))
  }

  datatype Bits = Bits(vlcBits: Option<int>, totalBits: Option<int>)

  /** The bit accounting: both counts are missing when `vlctest` rejects the
      payload; otherwise the total is payload bits plus declared header bits. */
  function CountBits(vlc: Option<int>, nHeaderBits: int): (b: Bits)
    ensures b.vlcBits == vlc
    ensures b.totalBits.None? <==> vlc.None?
    ensures vlc.Some? ==> b.totalBits.value - nHeaderBits == vlc.value
  {
    match vlc
    case None => Bits(None, None)
    case Some(v) => Bits(Some(v), Some(v + nHeaderBits))
  }

  /** The per-image verdict, as the report writes it. */
  predicate ImageFails<P, H>(row: Row<P, H>)
  {
    row.vlcBits.None? || (row.totalBits.Some? && row.totalBits.value > BitBudget)
  }

  /** The bit counts of a row are those CountBits gives. */
  predicate Accounted<P, H>(row: Row<P, H>)
  {
    && (row.vlcBits.None? <==> row.totalBits.None?)
    && (row.vlcBits.Some? ==> row.totalBits.value == row.vlcBits.value + row.enc.nHeaderBits)
  }

  /** An accounted image passes exactly when its bits are known and within budget. */
  lemma PassIffWithinBudget<P, H>(row: Row<P, H>)
    requires Accounted(row)
    ensures !ImageFails(row) <==> row.totalBits.Some? && row.totalBits.value <= BitBudget
  {
  }

  /** The budget comparison is strict: exactly 40960 bits passes, 40961 fails. */
  lemma BudgetBoundary<P, H>(row: Row<P, H>)
    requires row.vlcBits.Some?
    ensures row.totalBits == Some(40960) ==> !ImageFails(row)
    ensures row.totalBits == Some(40961) ==> ImageFails(row)
  {
  }

  /** The first loop of `collect` on one identifier. */
  function Prepare<P, H>(img: string, ext: Externals<P, H>): Result<Pending<P, H>, Stage>
  {
    var res := Resolve(img, ext.pkgDir);
    match ext.loadMatImg(res.fileName)
    case None => Failure(LoadImage)
    case Some(x) =>
      match EncodeProcess(ext, x)
      case None => Failure(RunEncoder)
      case Some(e) => Success(Pending(res.name, x, e))
  }

  /** The second loop of `collect` on one encoded image. */
  function Finish<P, H>(p: Pending<P, H>, ext: Externals<P, H>): Result<Row<P, H>, Stage>
  {
    match ext.decode(p.enc.vlc, p.enc.header)
    case None => Failure(RunDecoder)
    case Some(z) =>
      if !ext.broadcasts(p.x, ClipImage(z)) then Failure(CompareImages)
      else
        var b := CountBits(ext.vlctest(p.enc.vlc), p.enc.nHeaderBits);
        Success(Row(p.name, p.x, p.enc, z, ClipImage(z), b.vlcBits, b.totalBits))
  }

  /** Which identifiers the first loop gets through. */
  function PreparedOk<P, H>(imgs: seq<string>, ext: Externals<P, H>): (bs: seq<bool>)
    ensures |bs| == |imgs| && forall i :: 0 <= i < |imgs| ==> bs[i] == Prepare(imgs[i], ext).Success?
  {
    seq(|imgs|, i requires 0 <= i < |imgs| => Prepare(imgs[i], ext).Success?)
  }

  function PendingAll<P, H>(imgs: seq<string>, ext: Externals<P, H>): (ps: seq<Pending<P, H>>)
    requires forall i :: 0 <= i < |imgs| ==> Prepare(imgs[i], ext).Success?
    ensures |ps| == |imgs| && forall i :: 0 <= i < |imgs| ==> Prepare(imgs[i], ext) == Success(ps[i])
  {
    seq(|imgs|, i requires 0 <= i < |imgs| => Prepare(imgs[i], ext).value)
  }

  /** Which encoded images the second loop gets through. */
  function FinishedOk<P, H>(ps: seq<Pending<P, H>>, ext: Externals<P, H>): (bs: seq<bool>)
    ensures |bs| == |ps| && forall i :: 0 <= i < |ps| ==> bs[i] == Finish(ps[i], ext).Success?
  {
    seq(|ps|, i requires 0 <= i < |ps| => Finish(ps[i], ext).Success?)
  }

  function RowsAll<P, H>(ps: seq<Pending<P, H>>, ext: Externals<P, H>): (rows: seq<Row<P, H>>)
    requires forall i :: 0 <= i < |ps| ==> Finish(ps[i], ext).Success?
    ensures |rows| == |ps| && forall i :: 0 <= i < |ps| ==> Finish(ps[i], ext) == Success(rows[i])
  {
    seq(|ps|, i requires 0 <= i < |ps| => Finish(ps[i], ext).value)
  }

  /** What `collect` returns, or which call aborts it: the first failure of the
      first loop, if any; else the first failure of the second loop, if any. */
  function Collected<P, H>(imgs: seq<string>, ext: Externals<P, H>): Result<seq<Row<P, H>>, Abort>
  {
    match FirstFalse(PreparedOk(imgs, ext))
    case Some(i) => Failure(Abort(Prepare(imgs[i], ext).error, i))
    case None =>
      var ps := PendingAll(imgs, ext);
      match FirstFalse(FinishedOk(ps, ext))
      case Some(j) => Failure(Abort(Finish(ps[j], ext).error, j))
      case None => Success(RowsAll(ps, ext))
  }

  /** The calls of the first loop over its first `n` images: load, then encode, for each. */
  function Encodes(n: nat): (t: seq<Call>)
    ensures |t| == 2 * n
  {
    seq(2 * n, k requires 0 <= k < 2 * n => if k % 2 == 0 then LoadCall(k / 2) else EncodeCall(k / 2))
  }

  function Decodes(n: nat): (t: seq<Call>)
    ensures |t| == n && forall k :: 0 <= k < n ==> t[k] == DecodeCall(k)
  {
    seq(n, k requires 0 <= k < n => DecodeCall(k))
  }

  lemma EncodesAt(n: nat)
    ensures forall k :: 0 <= k < 2 * n ==>
      Encodes(n)[k] == if k % 2 == 0 then LoadCall(k / 2) else EncodeCall(k / 2)
  {
  }

  lemma EncodesStep(n: nat)
    ensures Encodes(n) + [LoadCall(n), EncodeCall(n)] == Encodes(n + 1)
  {
  }

  lemma LoadThenEncode(t: seq<Call>, n: nat)
    requires t == Encodes(n)
    ensures t + [LoadCall(n)] + [EncodeCall(n)] == Encodes(n + 1)
  {
    EncodesStep(n);
    assert t + [LoadCall(n)] + [EncodeCall(n)] == t + [LoadCall(n), EncodeCall(n)];
  }

  /** The calls `collect` makes over `n` images, given how it ended. */
  function CollectTrace<P, H>(n: nat, r: Result<seq<Row<P, H>>, Abort>): seq<Call>
  {
    match r
    case Success(_) => Encodes(n) + Decodes(n)
    case Failure(Abort(stage, i)) =>
      if stage == LoadImage then Encodes(i) + [LoadCall(i)]
      else if stage == RunEncoder then Encodes(i + 1)
      else Encodes(n) + Decodes(i + 1)
  }

  /** One step of the first loop, `Prepare` as a method (split out of
      `EncodeAll`): resolve the identifier, load the image and encode it,
      stopping at the call that raises. */
  method PrepareOne<P, H>(img: string, ext: Externals<P, H>) returns (r: Result<Pending<P, H>, Stage>)
    ensures r == Prepare(img, ext)
    ensures r == Failure(LoadImage) <==> ext.loadMatImg(Resolve(img, ext.pkgDir).fileName).None?
    ensures r == Failure(RunEncoder) <==>
      && ext.loadMatImg(Resolve(img, ext.pkgDir).fileName).Some?
      && EncodeProcess(ext, ext.loadMatImg(Resolve(img, ext.pkgDir).fileName).value).None?
    ensures r.Success? ==>
      && r.value.name == Resolve(img, ext.pkgDir).name
      && ext.loadMatImg(Resolve(img, ext.pkgDir).fileName) == Some(r.value.x)
      && EncodeProcess(ext, r.value.x) == Some(r.value.enc)
  {
    var res := Resolve(img, ext.pkgDir);
    var x := ext.loadMatImg(res.fileName);
    if x.None? {
      return Failure(LoadImage);
    }
    var enc := EncodeProcess(ext, x.value);
    if enc.None? {
      return Failure(RunEncoder);
    }
    r := Success(Pending(res.name, x.value, enc.value));
  }

  /** The first loop of `collect`: resolve, load and encode each identifier in
      turn, stopping at the first call that raises. */
  method EncodeAll<P, H>(imgs: seq<string>, ext: Externals<P, H>)
    returns (stop: Option<nat>, pending: seq<Pending<P, H>>, trace: seq<Call>)
    ensures stop == FirstFalse(PreparedOk(imgs, ext))
    ensures stop.None? ==> pending == PendingAll(imgs, ext)
    ensures stop.None? ==> trace == Encodes(|imgs|)
    ensures stop.Some? && Prepare(imgs[stop.value], ext).error == LoadImage ==> trace == Encodes(stop.value) + [LoadCall(stop.value)]
    ensures stop.Some? && Prepare(imgs[stop.value], ext).error == RunEncoder ==> trace == Encodes(stop.value + 1)
  {
    trace := [];
    pending := [];
    for i := 0 to |imgs|
      invariant |pending| == i
      invariant forall k :: 0 <= k < i ==> Prepare(imgs[k], ext) == Success(pending[k])
      invariant trace == Encodes(i)
    {
      var p := PrepareOne(imgs[i], ext);
      if p.Failure? {
        FirstFalseUnique(PreparedOk(imgs, ext), i);
        if p.error == LoadImage {
          return Some(i), pending, trace + [LoadCall(i)];
        }
        LoadThenEncode(trace, i);
        return Some(i), pending, trace + [LoadCall(i)] + [EncodeCall(i)];
      }
      LoadThenEncode(trace, i);
      trace := trace + [LoadCall(i)] + [EncodeCall(i)];
      pending := pending + [p.value];
    }
    stop := None;
  }

  /** The second loop of `collect`: decode each encoded image, clip the
      reconstruction, compare it with the original and count its bits,
      stopping at the first decode or comparison that raises. */
  method DecodeAll<P, H>(pending: seq<Pending<P, H>>, ext: Externals<P, H>, before: seq<Call>)
    returns (stop: Option<nat>, rows: seq<Row<P, H>>, trace: seq<Call>)
    ensures stop == FirstFalse(FinishedOk(pending, ext))
    ensures stop.None? ==> rows == RowsAll(pending, ext) && trace == before + Decodes(|pending|)
    ensures stop.Some? ==> trace == before + Decodes(stop.value + 1)
  {
    rows := [];
    trace := before;
    assert before + Decodes(0) == before;
    for j := 0 to |pending|
      invariant |rows| == j
      invariant forall k :: 0 <= k < j ==> Finish(pending[k], ext) == Success(rows[k])
      invariant trace == before + Decodes(j)
    {
      var p := pending[j];
      assert Decodes(j) + [DecodeCall(j)] == Decodes(j + 1);
      trace := trace + [DecodeCall(j)];
      var z := ext.decode(p.enc.vlc, p.enc.header);
      if z.None? {
        FirstFalseUnique(FinishedOk(pending, ext), j);
        return Some(j), rows, trace;
      }
      var zActual := ClipImage(z.value);
      if !ext.broadcasts(p.x, zActual) {
        FirstFalseUnique(FinishedOk(pending, ext), j);
        return Some(j), rows, trace;
      }
      var b := CountBits(ext.vlctest(p.enc.vlc), p.enc.nHeaderBits);
      rows := rows + [Row(p.name, p.x, p.enc, z.value, zActual, b.vlcBits, b.totalBits)];
    }
    stop := None;
  }

  /** `collect`, as the harness runs it: all encodes in a first loop, then all
      decodes and bit counts in a second; the first call that raises ends it. */
  method Collect<P, H>(imgs: seq<string>, ext: Externals<P, H>)
    returns (r: Result<seq<Row<P, H>>, Abort>, trace: seq<Call>)
    ensures r == Collected(imgs, ext)
    ensures trace == CollectTrace(|imgs|, r)
  {
    var stop, pending, encodeTrace := EncodeAll(imgs, ext);
    if stop.Some? {
      return Failure(Abort(Prepare(imgs[stop.value], ext).error, stop.value)), encodeTrace;
    }
    var stop2, rows;
    stop2, rows, trace := DecodeAll(pending, ext, encodeTrace);
    if stop2.Some? {
      return Failure(Abort(Finish(pending[stop2.value], ext).error, stop2.value)), trace;
    }
    r := Success(rows);
  }

  /** Every row `collect` returns is the image its identifier names, encoded,
      decoded, clipped into range and given the bit counts CountBits gives. */
  lemma CollectedRows<P, H>(imgs: seq<string>, ext: Externals<P, H>, i: nat)
    requires Collected(imgs, ext).Success? && i < |imgs|
    ensures |Collected(imgs, ext).value| == |imgs|
    ensures
      var row, res := Collected(imgs, ext).value[i], Resolve(imgs[i], ext.pkgDir);
      && row.name == res.name
      && ext.loadMatImg(res.fileName) == Some(row.x)
      && EncodeProcess(ext, row.x) == Some(row.enc)
      && ext.decode(row.enc.vlc, row.enc.header) == Some(row.z)
      && row.zActual == ClipImage(row.z)
      && ext.broadcasts(row.x, row.zActual)
      && row.vlcBits == ext.vlctest(row.enc.vlc)
      && Accounted(row)
  {
    var ps := PendingAll(imgs, ext);
    assert Prepare(imgs[i], ext) == Success(ps[i]);
    assert Finish(ps[i], ext) == Success(Collected(imgs, ext).value[i]);
  }

  /** `collect` aborts at the first identifier that cannot be loaded or encoded;
      only if there is none, at the first image that cannot be decoded or
      compared with its original. */
  lemma CollectedAborts<P, H>(imgs: seq<string>, ext: Externals<P, H>)
    requires Collected(imgs, ext).Failure?
    ensures
      var Abort(stage, i) := Collected(imgs, ext).error;
      && i < |imgs|
      && (FirstLoop(stage) ==>
            Prepare(imgs[i], ext) == Failure(stage)
            && forall k :: 0 <= k < i ==> Prepare(imgs[k], ext).Success?)
      && (!FirstLoop(stage) ==>
            (forall k :: 0 <= k < |imgs| ==> Prepare(imgs[k], ext).Success?)
            && Finish(Prepare(imgs[i], ext).value, ext) == Failure(stage)
            && forall k :: 0 <= k < i ==> Finish(Prepare(imgs[k], ext).value, ext).Success?)
  {
    var first := FirstFalse(PreparedOk(imgs, ext));
    if first.None? {
      var ps := PendingAll(imgs, ext);
      var j := FirstFalse(FinishedOk(ps, ext)).value;
      assert Collected(imgs, ext).error == Abort(Finish(ps[j], ext).error, j);
      forall k | 0 <= k <= j
        ensures Prepare(imgs[k], ext).value == ps[k]
      {
      }
    }
  }

  /** Every load and encode comes before every decode, an image is encoded
      only after it was loaded and decoded only after it was encoded, and no
      call is repeated. */
  ghost predicate WellOrdered(t: seq<Call>)
  {
    && (forall a, b :: 0 <= a < b < |t| && t[a].DecodeCall? ==> t[b].DecodeCall?)
    && (forall a, b :: 0 <= a < b < |t| ==> t[a] != t[b])
    && (forall b :: 0 <= b < |t| && t[b].EncodeCall? ==>
          exists a :: 0 <= a < b && t[a] == LoadCall(t[b].index))
    && (forall b :: 0 <= b < |t| && t[b].DecodeCall? ==>
          exists a :: 0 <= a < b && t[a] == EncodeCall(t[b].index))
  }

  lemma EncodesThenDecodes(n: nat, d: nat)
    requires d <= n
    ensures WellOrdered(Encodes(n) + Decodes(d))
  {
    var t := Encodes(n) + Decodes(d);
    EncodesAt(n);
    assert forall k :: 0 <= k < 2 * n ==> t[k] == if k % 2 == 0 then LoadCall(k / 2) else EncodeCall(k / 2);
    assert forall k :: 2 * n <= k < |t| ==> t[k] == DecodeCall(k - 2 * n);
    forall b | 0 <= b < |t| && t[b].EncodeCall?
      ensures exists a :: 0 <= a < b && t[a] == LoadCall(t[b].index)
    {
      assert t[b - 1] == LoadCall(t[b].index);
    }
    forall b | 0 <= b < |t| && t[b].DecodeCall?
      ensures exists a :: 0 <= a < b && t[a] == EncodeCall(t[b].index)
    {
      assert t[2 * t[b].index + 1] == EncodeCall(t[b].index);
    }
  }

  /** Every prefix of a well-ordered sequence of calls is well ordered. */
  lemma WellOrderedPrefix(t: seq<Call>, m: nat)
    requires WellOrdered(t) && m <= |t|
    ensures WellOrdered(t[..m])
  {
    var u := t[..m];
    forall b | 0 <= b < |u| && u[b].EncodeCall?
      ensures exists a :: 0 <= a < b && u[a] == LoadCall(u[b].index)
    {
      var a :| 0 <= a < b && t[a] == LoadCall(t[b].index);
      assert u[a] == t[a];
    }
    forall b | 0 <= b < |u| && u[b].DecodeCall?
      ensures exists a :: 0 <= a < b && u[a] == EncodeCall(u[b].index)
    {
      var a :| 0 <= a < b && t[a] == EncodeCall(t[b].index);
      assert u[a] == t[a];
    }
  }

  lemma TraceOrdered<P, H>(n: nat, r: Result<seq<Row<P, H>>, Abort>)
    requires r.Failure? ==> r.error.index < n
    ensures WellOrdered(CollectTrace(n, r))
  {
    match r
    case Success(_) =>
      EncodesThenDecodes(n, n);
    case Failure(Abort(stage, i)) =>
      if stage == LoadImage {
        var t := Encodes(i + 1) + Decodes(0);
        EncodesThenDecodes(i + 1, 0);
        WellOrderedPrefix(t, 2 * i + 1);
        assert t[..2 * i + 1] == Encodes(i) + [LoadCall(i)];
      } else if stage == RunEncoder {
        EncodesThenDecodes(i + 1, 0);
        assert Encodes(i + 1) + Decodes(0) == Encodes(i + 1);
      } else {
        EncodesThenDecodes(n, i + 1);
      }
  }

  /** The calls of `collect` are well ordered, however it ends, and over a
      non-empty list the first of them loads the first image. */
  lemma CollectTraceOrdered<P, H>(imgs: seq<string>, ext: Externals<P, H>)
    ensures WellOrdered(CollectTrace(|imgs|, Collected(imgs, ext)))
    ensures |imgs| > 0 ==>
      var t := CollectTrace(|imgs|, Collected(imgs, ext));
      |t| > 0 && t[0] == LoadCall(0)
  {
    var r := Collected(imgs, ext);
    if r.Failure? {
      CollectedAborts(imgs, ext);
    }
    TraceOrdered(|imgs|, r);
  }
}
