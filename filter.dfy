/** Scanline reconstruction (src/filter.rs; the same routines appear in
    src/main.rs as `unfilter_*`). Each filtered scanline is turned back into
    pixel bytes in place, in one flat buffer that holds the rows already
    reconstructed, following PNG 1.2, sections 6.1 to 6.5. */
module Filters {
  import opened Bytes
  import opened Results

  datatype Filter = None | Sub | Up | Average | Paeth

  datatype FilterError = InvalidFilter(value: byte)

  /** The tag byte each filter type is written with. */
  function Code(f: Filter): (b: byte)
    ensures b <= 4
  {
    match f
    case None => 0
    case Sub => 1
    case Up => 2
    case Average => 3
    case Paeth => 4
  }

  /** `Filter::try_from(u8)`: the codes 0 to 4, and an error for every other byte. */
  function TryFromByte(value: byte): (r: Result<Filter, FilterError>)
    ensures r.Ok? <==> value <= 4
    ensures r.Ok? ==> Code(r.value) == value
    ensures r.Err? ==> r.error == InvalidFilter(value)
  {
    match value
    case 0 => Ok(None)
    case 1 => Ok(Sub)
    case 2 => Ok(Up)
    case 3 => Ok(Average)
    case 4 => Ok(Paeth)
    case _ => Err(InvalidFilter(value))
  }

  lemma CodeRoundTrip(f: Filter)
    ensures TryFromByte(Code(f)) == Ok(f)
  {
  }

  // ---------------------------------------------------------------------------
  // The Paeth predictor

  function Abs(x: int): nat {
    if x < 0 then -x else x
  }

  /** `paeth_predictor`, computed in `i16`. The estimate `left + up - upLeft`
      lies in [-255, 510] and every distance in [0, 510], so no `i16`
      operation can overflow and plain integers compute the same values. */
  function PaethPredictor(left: byte, up: byte, upLeft: byte): (r: byte)
    ensures r == left || r == up || r == upLeft
    ensures var p := left + up - upLeft;
      && Abs(p - r) <= Abs(p - left)
      && Abs(p - r) <= Abs(p - up)
      && Abs(p - r) <= Abs(p - upLeft)
    // ties are broken in the order left, up, upLeft
    ensures var p := left + up - upLeft;
      Abs(p - left) <= Abs(p - up) && Abs(p - left) <= Abs(p - upLeft) ==> r == left
    ensures var p := left + up - upLeft;
      Abs(p - up) < Abs(p - left) && Abs(p - up) <= Abs(p - upLeft) ==> r == up
  {
    var p := left as int + up as int - upLeft as int;
    var pa := Abs(p - left);
    var pb := Abs(p - up);
    var pc := Abs(p - upLeft);
    if pa <= pb && pa <= pc then left
    else if pb <= pc then up
    else upLeft
  }

  /** The `i16` arithmetic of `paeth_predictor` stays in range. */
  lemma PaethFitsI16(left: byte, up: byte, upLeft: byte)
    ensures var p := left + up - upLeft;
      && -255 <= p <= 510
      && Abs(p - left) <= 510 && Abs(p - up) <= 510 && Abs(p - upLeft) <= 510
  {
  }

  /** With no row above (`up == upLeft == 0`) the predictor is `left`. */
  lemma PaethOnFirstRow(left: byte)
    ensures PaethPredictor(left, 0, 0) == left
  {
  }

  // ---------------------------------------------------------------------------
  // Reconstruction as a function (the specification of the in-place methods)

  /** The byte `bpp` positions to the left of position `i`, or 0 before the
      first pixel. */
  function Left(s: seq<byte>, i: nat, bpp: nat): byte
    requires bpp >= 1 && i <= |s|
  {
    if i >= bpp then s[i - bpp] else 0
  }

  /** The predictor each filter adds back (PNG 1.2, sections 6.1 to 6.5). The
      Average sum is formed in `u16`, so it never wraps before halving. */
  function Predict(f: Filter, left: byte, up: byte, upLeft: byte): byte {
    match f
    case None => 0
    case Sub => left
    case Up => up
    case Average => (left as int + up as int) / 2
    case Paeth => PaethPredictor(left, up, upLeft)
  }

  function Zeros(n: nat): (z: seq<byte>)
    ensures |z| == n && forall i :: 0 <= i < n ==> z[i] == 0
  {
    seq(n, _ => 0)
  }

  /** The reconstructed row: byte `i` is `line[i]` plus the predictor of its
      reconstructed left neighbour, the byte above it in `prior` (the
      reconstructed previous row, all zeros on the first row) and the byte
      above-left of it. */
  function Recon(f: Filter, bpp: nat, prior: seq<byte>, line: seq<byte>): (r: seq<byte>)
    requires bpp >= 1 && |prior| == |line|
    ensures |r| == |line|
    decreases |line|
  {
    if |line| == 0 then []
    else
      var n := |line| - 1;
      var r := Recon(f, bpp, prior[..n], line[..n]);
      r + [WrappingAdd(line[n], Predict(f, Left(r, n, bpp), prior[n], Left(prior, n, bpp)))]
  }

  /** Filtering, the encoder's side (PNG 1.2, section 6): each raw byte minus
      the predictor of its raw neighbours. */
  function FilterRow(f: Filter, bpp: nat, prior: seq<byte>, raw: seq<byte>): (line: seq<byte>)
    requires bpp >= 1 && |prior| == |raw|
    ensures |line| == |raw|
  {
    seq(|raw|, i requires 0 <= i < |raw| =>
      WrappingSub(raw[i], Predict(f, Left(raw, i, bpp), prior[i], Left(prior, i, bpp))))
  }

  lemma {:induction false} ReconPrefix(f: Filter, bpp: nat, prior: seq<byte>, line: seq<byte>, m: nat)
    requires bpp >= 1 && |prior| == |line| && m <= |line|
    ensures Recon(f, bpp, prior, line)[..m] == Recon(f, bpp, prior[..m], line[..m])
    decreases |line|
  {
    if m < |line| {
      var n := |line| - 1;
      ReconPrefix(f, bpp, prior[..n], line[..n], m);
      assert prior[..n][..m] == prior[..m] && line[..n][..m] == line[..m];
    } else {
      assert prior[..m] == prior && line[..m] == line;
    }
  }

  /** Byte `i` of the reconstruction, stated outright. */
  lemma ReconAt(f: Filter, bpp: nat, prior: seq<byte>, line: seq<byte>, i: nat)
    requires bpp >= 1 && |prior| == |line| && i < |line|
    ensures var r := Recon(f, bpp, prior, line);
      r[i] == WrappingAdd(line[i], Predict(f, Left(r, i, bpp), prior[i], Left(prior, i, bpp)))
  {
    var r := Recon(f, bpp, prior, line);
    ReconPrefix(f, bpp, prior, line, i + 1);
    ReconPrefix(f, bpp, prior, line, i);
    var p1, l1 := prior[..i + 1], line[..i + 1];
    assert p1[..i] == prior[..i] && l1[..i] == line[..i];
    assert r[..i + 1][i] == r[i];
    assert Left(r[..i], i, bpp) == Left(r, i, bpp);
  }

  /** Reconstruction inverts filtering, for every filter and every prior row. */
  lemma {:induction false} ReconOfFilterRow(f: Filter, bpp: nat, prior: seq<byte>, raw: seq<byte>)
    requires bpp >= 1 && |prior| == |raw|
    ensures Recon(f, bpp, prior, FilterRow(f, bpp, prior, raw)) == raw
    decreases |raw|
  {
    if |raw| > 0 {
      var n := |raw| - 1;
      var line := FilterRow(f, bpp, prior, raw);
      FilterRowPrefix(f, bpp, prior, raw, n);
      ReconOfFilterRow(f, bpp, prior[..n], raw[..n]);
      ReconLastOfFilterRow(f, bpp, prior, raw, line);
    }
  }

  /** Filtering looks only to the left, so it commutes with taking a prefix. */
  lemma FilterRowPrefix(f: Filter, bpp: nat, prior: seq<byte>, raw: seq<byte>, n: nat)
    requires bpp >= 1 && |prior| == |raw| && n <= |raw|
    ensures FilterRow(f, bpp, prior, raw)[..n] == FilterRow(f, bpp, prior[..n], raw[..n])
  {
    var line := FilterRow(f, bpp, prior, raw);
    forall i | 0 <= i < n ensures line[..n][i] == FilterRow(f, bpp, prior[..n], raw[..n])[i] {
      assert Left(raw, i, bpp) == Left(raw[..n], i, bpp);
      assert Left(prior, i, bpp) == Left(prior[..n], i, bpp);
    }
  }

  /** The last step of `ReconOfFilterRow`: once the first `n` bytes are
      recovered, so is byte `n`. */
  lemma ReconLastOfFilterRow(f: Filter, bpp: nat, prior: seq<byte>, raw: seq<byte>, line: seq<byte>)
    requires bpp >= 1 && |prior| == |raw| && |raw| > 0
    requires line == FilterRow(f, bpp, prior, raw)
    requires Recon(f, bpp, prior[..|raw| - 1], line[..|raw| - 1]) == raw[..|raw| - 1]
    ensures Recon(f, bpp, prior, line) == raw
  {
    var n := |raw| - 1;
    var p := Predict(f, Left(raw, n, bpp), prior[n], Left(prior, n, bpp));
    assert line[n] == WrappingSub(raw[n], p);
    var r0 := Recon(f, bpp, prior[..n], line[..n]);
    assert Left(r0, n, bpp) == Left(raw, n, bpp);
    var x := WrappingAdd(line[n], p);
    assert Recon(f, bpp, prior, line) == r0 + [x];
    AddUndoesSub(raw[n], p);
    Snoc(r0, x, raw);
  }

  lemma Snoc(front: seq<byte>, last: byte, s: seq<byte>)
    requires |s| > 0 && front == s[..|s| - 1] && last == s[|s| - 1]
    ensures front + [last] == s
  {
  }

  /** Filtering a reconstruction gives back the filtered line: the two are
      inverse bijections on rows. */
  lemma FilterRowOfRecon(f: Filter, bpp: nat, prior: seq<byte>, line: seq<byte>)
    requires bpp >= 1 && |prior| == |line|
    ensures FilterRow(f, bpp, prior, Recon(f, bpp, prior, line)) == line
  {
    var r := Recon(f, bpp, prior, line);
    forall i | 0 <= i < |line| ensures FilterRow(f, bpp, prior, r)[i] == line[i] {
      ReconAt(f, bpp, prior, line, i);
      AddUndoesSub(line[i], Predict(f, Left(r, i, bpp), prior[i], Left(prior, i, bpp)));
    }
  }

  /** None copies the line. */
  lemma ReconNone(bpp: nat, prior: seq<byte>, line: seq<byte>)
    requires bpp >= 1 && |prior| == |line|
    ensures Recon(None, bpp, prior, line) == line
  {
    forall i | 0 <= i < |line| ensures Recon(None, bpp, prior, line)[i] == line[i] {
      ReconAt(None, bpp, prior, line, i);
    }
  }

  /** Up adds the byte above, whatever `bpp` is. */
  lemma ReconUp(bpp: nat, prior: seq<byte>, line: seq<byte>, i: nat)
    requires bpp >= 1 && |prior| == |line| && i < |line|
    ensures Recon(Up, bpp, prior, line)[i] == WrappingAdd(line[i], prior[i])
  {
    ReconAt(Up, bpp, prior, line, i);
  }

  /** Sub never looks at the row above. */
  lemma {:induction false} ReconSubIgnoresPrior(bpp: nat, prior: seq<byte>, line: seq<byte>)
    requires bpp >= 1 && |prior| == |line|
    ensures Recon(Sub, bpp, prior, line) == Recon(Sub, bpp, Zeros(|line|), line)
    decreases |line|
  {
    if |line| > 0 {
      var n := |line| - 1;
      ReconSubIgnoresPrior(bpp, prior[..n], line[..n]);
      assert Zeros(|line|)[..n] == Zeros(n);
    }
  }

  /** On the first row, where the prior row is all zeros, Up is None and
      Paeth is Sub (PNG 1.2, sections 6.3 and 6.5). */
  lemma {:induction false} FirstRowPaethIsSub(bpp: nat, line: seq<byte>)
    requires bpp >= 1
    ensures Recon(Paeth, bpp, Zeros(|line|), line) == Recon(Sub, bpp, Zeros(|line|), line)
    decreases |line|
  {
    if |line| > 0 {
      var n := |line| - 1;
      assert Zeros(|line|)[..n] == Zeros(n);
      FirstRowPaethIsSub(bpp, line[..n]);
      var r := Recon(Sub, bpp, Zeros(n), line[..n]);
      PaethOnFirstRow(Left(r, n, bpp));
    }
  }

  lemma FirstRowUpIsNone(bpp: nat, line: seq<byte>)
    requires bpp >= 1
    ensures Recon(Up, bpp, Zeros(|line|), line) == line
  {
    forall i | 0 <= i < |line| ensures Recon(Up, bpp, Zeros(|line|), line)[i] == line[i] {
      ReconUp(bpp, Zeros(|line|), line, i);
    }
  }

  // ---------------------------------------------------------------------------
  // The in-place decoders

  /** The previous row as the decoders see it: the `len` bytes before
      `lineStart`, or all zeros on the first row (`lineStart == 0`). */
  function Prior(data: seq<byte>, lineStart: nat, len: nat): (p: seq<byte>)
    requires lineStart <= |data|
    requires lineStart == 0 || lineStart >= len
    ensures |p| == len
  {
    if lineStart == 0 then Zeros(len) else data[lineStart - len..lineStart]
  }

  /** Only the window `[lo, hi)` of `a` may differ from `b`. */
  ghost predicate SameOutside(a: seq<byte>, b: seq<byte>, lo: nat, hi: nat) {
    |a| == |b| && forall k :: 0 <= k < |a| && !(lo <= k < hi) ==> a[k] == b[k]
  }

  /** The first `i` bytes of the window at `lineStart` of `d` hold `r[..i]`. */
  ghost predicate Written(d: seq<byte>, lineStart: nat, r: seq<byte>, i: nat) {
    i <= |r| && lineStart + i <= |d| && forall k :: 0 <= k < i ==> d[lineStart + k] == r[k]
  }

  /** Writing `r[i]` at the next position of the window extends both loop
      invariants of the decoders by one byte. */
  lemma WriteNext(d: seq<byte>, o: seq<byte>, lineStart: nat, r: seq<byte>, i: nat, v: byte)
    requires Written(d, lineStart, r, i) && SameOutside(d, o, lineStart, lineStart + i)
    requires i < |r| && lineStart + i < |d| && v == r[i]
    ensures Written(d[lineStart + i := v], lineStart, r, i + 1)
    ensures SameOutside(d[lineStart + i := v], o, lineStart, lineStart + i + 1)
  {
  }

  /** While a row is being decoded, the bytes the decoders read are the
      reconstructed left neighbour and the two bytes of the prior row. */
  lemma ReadBack(d: seq<byte>, o: seq<byte>, lineStart: nat, r: seq<byte>, line: seq<byte>, i: nat, bpp: nat)
    requires bpp >= 1 && |r| == |line| && i < |line| && lineStart + |line| <= |o|
    requires Written(d, lineStart, r, i) && SameOutside(d, o, lineStart, lineStart + i)
    ensures i >= bpp ==> d[lineStart + i - bpp] == Left(r, i, bpp)
    ensures lineStart >= |line| > 0 ==> var prior := Prior(o, lineStart, |line|);
      && d[lineStart - |line| + i] == prior[i]
      && (i >= bpp ==> d[lineStart - |line| + i - bpp] == Left(prior, i, bpp))
  {
    if i >= bpp {
      assert d[lineStart + (i - bpp)] == r[i - bpp];
    }
  }

  /** Byte `i` of a reconstructed row, given the three neighbours it is
      predicted from. */
  lemma ReconStep(f: Filter, bpp: nat, prior: seq<byte>, line: seq<byte>, i: nat, left: byte, up: byte, upLeft: byte)
    requires bpp >= 1 && |prior| == |line| && i < |line|
    requires left == Left(Recon(f, bpp, prior, line), i, bpp)
    requires up == prior[i] && upLeft == Left(prior, i, bpp)
    ensures Recon(f, bpp, prior, line)[i] == WrappingAdd(line[i], Predict(f, left, up, upLeft))
  {
    ReconAt(f, bpp, prior, line, i);
  }

  /** A window written in full is `r`. */
  lemma WrittenAll(d: seq<byte>, lineStart: nat, r: seq<byte>)
    requires Written(d, lineStart, r, |r|)
    ensures d[lineStart..lineStart + |r|] == r
  {
    forall k | 0 <= k < |r| ensures d[lineStart..lineStart + |r|][k] == r[k] {
      assert d[lineStart..lineStart + |r|][k] == d[lineStart + k];
    }
  }

  /** `decode_none`: copies `line` into the window starting at `lineStart`. */
  method DecodeNone(line: seq<byte>, lineStart: nat, data: array<byte>) returns (next: nat)
    requires lineStart + |line| <= data.Length
    modifies data
    ensures next == lineStart + |line|
    ensures data[lineStart..next] == line
    ensures SameOutside(data[..], old(data[..]), lineStart, next)
  {
    next := lineStart + |line|;
    forall k | lineStart <= k < next {
      data[k] := line[k - lineStart];
    }
    assert data[lineStart..next] == line by {
      forall k | 0 <= k < |line| ensures data[lineStart..next][k] == line[k] {
        assert data[lineStart..next][k] == data[lineStart + k];
      }
    }
  }

  /** `decode_sub`: adds the reconstructed byte `bpp` positions to the left. */
  method DecodeSub(bpp: nat, line: seq<byte>, lineStart: nat, data: array<byte>) returns (next: nat)
    requires bpp >= 1
    requires lineStart + |line| <= data.Length
    modifies data
    ensures next == lineStart + |line|
    ensures data[lineStart..next] == Recon(Sub, bpp, Zeros(|line|), line)
    ensures SameOutside(data[..], old(data[..]), lineStart, next)
  {
    ghost var o := data[..];
    ghost var prior := Zeros(|line|);
    ghost var r := Recon(Sub, bpp, prior, line);
    var i := 0;
    while i < |line|
      invariant 0 <= i <= |line|
      invariant Written(data[..], lineStart, r, i)
      invariant SameOutside(data[..], o, lineStart, lineStart + i)
    {
      ReadBack(data[..], o, lineStart, r, line, i, bpp);
      var left := if i >= bpp then data[lineStart + i - bpp] else 0;
      ReconStep(Sub, bpp, prior, line, i, left, 0, 0);
      var v := WrappingAdd(line[i], left);
      ghost var d := data[..];
      data[lineStart + i] := v;
      assert data[..] == d[lineStart + i := v];
      WriteNext(d, o, lineStart, r, i, v);
      i := i + 1;
    }
    next := lineStart + |line|;
    WrittenAll(data[..], lineStart, r);
  }

  /** `decode_up`: adds the byte above; on the first row it copies. The row
      above is assumed to start `|line|` bytes before `lineStart`. */
  method DecodeUp(line: seq<byte>, lineStart: nat, data: array<byte>) returns (next: nat)
    requires lineStart + |line| <= data.Length
    requires lineStart == 0 || lineStart >= |line|
    modifies data
    ensures next == lineStart + |line|
    ensures var prior := Prior(old(data[..]), lineStart, |line|);
      forall k :: 0 <= k < |line| ==> data[lineStart + k] == WrappingAdd(line[k], prior[k])
    ensures SameOutside(data[..], old(data[..]), lineStart, next)
  {
    ghost var o := data[..];
    ghost var prior := Prior(o, lineStart, |line|);
    ghost var r := seq(|line|, k requires 0 <= k < |line| => WrappingAdd(line[k], prior[k]));
    var i := 0;
    if lineStart == 0 {
      while i < |line|
        invariant 0 <= i <= |line|
        invariant Written(data[..], lineStart, r, i)
        invariant SameOutside(data[..], o, lineStart, lineStart + i)
      {
        assert line[i] == r[i];
        ghost var d := data[..];
        data[lineStart + i] := line[i];
        assert data[..] == d[lineStart + i := line[i]];
        WriteNext(d, o, lineStart, r, i, line[i]);
        i := i + 1;
      }
    } else {
      var previousLineStart := lineStart - |line|;
      while i < |line|
        invariant 0 <= i <= |line|
        invariant Written(data[..], lineStart, r, i)
        invariant SameOutside(data[..], o, lineStart, lineStart + i)
      {
        ReadBack(data[..], o, lineStart, r, line, i, 1);
        var up := data[previousLineStart + i];
        var v := WrappingAdd(line[i], up);
        assert v == r[i];
        ghost var d := data[..];
        data[lineStart + i] := v;
        assert data[..] == d[lineStart + i := v];
        WriteNext(d, o, lineStart, r, i, v);
        i := i + 1;
      }
    }
    next := lineStart + |line|;
    forall k | 0 <= k < |line| ensures data[lineStart + k] == WrappingAdd(line[k], prior[k]) {
      assert data[lineStart + k] == r[k];
    }
  }

  /** `decode_average`, as PNG 1.2, section 6.4 defines it: adds
      floor((left + up) / 2), with `up == 0` on the first row. */
  method DecodeAverage(bpp: nat, line: seq<byte>, lineStart: nat, data: array<byte>) returns (next: nat)
    requires bpp >= 1
    requires lineStart + |line| <= data.Length
    requires lineStart == 0 || lineStart >= |line|
    modifies data
    ensures next == lineStart + |line|
    ensures data[lineStart..next] == Recon(Average, bpp, Prior(old(data[..]), lineStart, |line|), line)
    ensures SameOutside(data[..], old(data[..]), lineStart, next)
  {
    ghost var o := data[..];
    ghost var prior := Prior(o, lineStart, |line|);
    ghost var r := Recon(Average, bpp, prior, line);
    var i := 0;
    if lineStart == 0 {
      while i < |line|
        invariant 0 <= i <= |line|
        invariant Written(data[..], lineStart, r, i)
        invariant SameOutside(data[..], o, lineStart, lineStart + i)
      {
        ReadBack(data[..], o, lineStart, r, line, i, bpp);
        var left := if i >= bpp then data[lineStart + i - bpp] else 0;
        ReconStep(Average, bpp, prior, line, i, left, 0, 0);
        var v := WrappingAdd(line[i], left / 2);
        ghost var d := data[..];
        data[lineStart + i] := v;
        assert data[..] == d[lineStart + i := v];
        WriteNext(d, o, lineStart, r, i, v);
        i := i + 1;
      }
    } else {
      var previousLineStart := lineStart - |line|;
      while i < |line|
        invariant 0 <= i <= |line|
        invariant Written(data[..], lineStart, r, i)
        invariant SameOutside(data[..], o, lineStart, lineStart + i)
      {
        ReadBack(data[..], o, lineStart, r, line, i, bpp);
        var up := data[previousLineStart + i];
        var left := if i >= bpp then data[lineStart + i - bpp] else 0;
        ReconStep(Average, bpp, prior, line, i, left, up, Left(prior, i, bpp));
        var v := WrappingAdd(line[i], (up as int + left as int) / 2);
        ghost var d := data[..];
        data[lineStart + i] := v;
        assert data[..] == d[lineStart + i := v];
        WriteNext(d, o, lineStart, r, i, v);
        i := i + 1;
      }
    }
    next := lineStart + |line|;
    WrittenAll(data[..], lineStart, r);
  }

  /** `decode_average` as the source writes it: on the first row it adds the
      whole left byte instead of half of it, i.e. it decodes Sub there. */
  method DecodeAverageAsWritten(bpp: nat, line: seq<byte>, lineStart: nat, data: array<byte>) returns (next: nat)
    requires bpp >= 1
    requires lineStart + |line| <= data.Length
    requires lineStart == 0 || lineStart >= |line|
    modifies data
    ensures next == lineStart + |line|
    ensures lineStart == 0 ==> data[lineStart..next] == Recon(Sub, bpp, Zeros(|line|), line)
    ensures lineStart != 0 ==>
      data[lineStart..next] == Recon(Average, bpp, Prior(old(data[..]), lineStart, |line|), line)
    ensures SameOutside(data[..], old(data[..]), lineStart, next)
  {
    if lineStart == 0 {
      next := DecodeSub(bpp, line, lineStart, data);
    } else {
      next := DecodeAverage(bpp, line, lineStart, data);
    }
  }

  /** A two-byte first row with one byte per pixel, reconstructed. */
  lemma ReconTwoOnFirstRow(f: Filter, a: byte, b: byte)
    ensures Recon(f, 1, Zeros(2), [a, b]) == [WrappingAdd(a, Predict(f, 0, 0, 0)), WrappingAdd(b, Predict(f, WrappingAdd(a, Predict(f, 0, 0, 0)), 0, 0))]
  {
    var z := Zeros(2);
    var line: seq<byte> := [a, b];
    assert z[..1] == Zeros(1) && line[..1] == [a];
    var r1 := Recon(f, 1, Zeros(1), [a]);
    assert Zeros(1)[..0] == [] && [a][..0] == [];
    assert r1 == [WrappingAdd(a, Predict(f, 0, 0, 0))];
  }

  /** The first-row discrepancy on a concrete row: the raw row [10, 5],
      Average-filtered against a zero prior row, is [10, 0]; reconstructing that
      as the source does gives [10, 10], while PNG's Average gives [10, 5]. */
  lemma AverageFirstRowAsWrittenIsWrong()
    ensures FilterRow(Average, 1, Zeros(2), [10, 5]) == [10, 0]
    ensures Recon(Sub, 1, Zeros(2), [10, 0]) == [10, 10]
    ensures Recon(Average, 1, Zeros(2), [10, 0]) == [10, 5]
  {
    var row := FilterRow(Average, 1, Zeros(2), [10, 5]);
    assert row[0] == 10 && row[1] == 0;
    ReconTwoOnFirstRow(Sub, 10, 0);
    ReconTwoOnFirstRow(Average, 10, 0);
  }

  /** `decode_paeth`: adds the Paeth predictor of left, up and up-left, with
      `up == upLeft == 0` on the first row. */
  method DecodePaeth(bpp: nat, line: seq<byte>, lineStart: nat, data: array<byte>) returns (next: nat)
    requires bpp >= 1
    requires lineStart + |line| <= data.Length
    requires lineStart == 0 || lineStart >= |line|
    modifies data
    ensures next == lineStart + |line|
    ensures data[lineStart..next] == Recon(Paeth, bpp, Prior(old(data[..]), lineStart, |line|), line)
    ensures SameOutside(data[..], old(data[..]), lineStart, next)
  {
    ghost var o := data[..];
    ghost var prior := Prior(o, lineStart, |line|);
    ghost var r := Recon(Paeth, bpp, prior, line);
    var i := 0;
    if lineStart == 0 {
      while i < |line|
        invariant 0 <= i <= |line|
        invariant Written(data[..], lineStart, r, i)
        invariant SameOutside(data[..], o, lineStart, lineStart + i)
      {
        ReadBack(data[..], o, lineStart, r, line, i, bpp);
        var left := if i >= bpp then data[lineStart + i - bpp] else 0;
        ReconStep(Paeth, bpp, prior, line, i, left, 0, 0);
        var v := WrappingAdd(line[i], PaethPredictor(left, 0, 0));
        ghost var d := data[..];
        data[lineStart + i] := v;
        assert data[..] == d[lineStart + i := v];
        WriteNext(d, o, lineStart, r, i, v);
        i := i + 1;
      }
    } else {
      var previousLineStart := lineStart - |line|;
      while i < |line|
        invariant 0 <= i <= |line|
        invariant Written(data[..], lineStart, r, i)
        invariant SameOutside(data[..], o, lineStart, lineStart + i)
      {
        ReadBack(data[..], o, lineStart, r, line, i, bpp);
        var upLeft, up, left;
        if i >= bpp {
          upLeft, up, left := data[previousLineStart + i - bpp], data[previousLineStart + i], data[lineStart + i - bpp];
        } else {
          upLeft, up, left := 0, data[previousLineStart + i], 0;
        }
        ReconStep(Paeth, bpp, prior, line, i, left, up, upLeft);
        var v := WrappingAdd(line[i], PaethPredictor(left, up, upLeft));
        ghost var d := data[..];
        data[lineStart + i] := v;
        assert data[..] == d[lineStart + i := v];
        WriteNext(d, o, lineStart, r, i, v);
        i := i + 1;
      }
    }
    next := lineStart + |line|;
    WrittenAll(data[..], lineStart, r);
  }
}
