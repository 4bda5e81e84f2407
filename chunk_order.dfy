/** The chunk-ordering automaton of src/chunk.rs (repeated in src/main.rs):
    a fold over the chunk types that keeps the set of types seen so far
    (`present`) and the set of types allowed next (`authorized`), enforcing
    the ordering table of PNG 1.2, section 4.3. */
module ChunkOrder {
  import opened Results
  import opened Chunks

  datatype ValidationSets = ValidationSets(present: set<ChunkType>, authorized: set<ChunkType>)

  datatype OrderingError =
    | NotHandled(name: seq<char>)     // an `Unknown` chunk that was authorized
    | Unauthorized(chunkType: ChunkType)

  /** Types that may only come before PLTE. */
  const BeforePlteChunks: set<ChunkType> := {PLTE, gAMA, cHRM, sRGB, iCCP, sBIT}

  /** Types that may only come before the first IDAT. */
  const BeforeIdatChunks: set<ChunkType> :=
    {PLTE, tRNS, gAMA, cHRM, sRGB, iCCP, bKGD, pHYs, sBIT, sPLT, hIST}

  /** What IHDR authorizes: every known type except IHDR and IEND. */
  const StartChunks: set<ChunkType> :=
    {PLTE, IDAT, tRNS, gAMA, cHRM, sRGB, iCCP, tEXt, zTXt, iTXt, bKGD, pHYs, sBIT, sPLT, hIST, tIME}

  /** Types the table marks as not repeatable. */
  const UniqueChunks: set<ChunkType> :=
    {IHDR, PLTE, IEND, cHRM, gAMA, iCCP, sBIT, sRGB, bKGD, hIST, tRNS, pHYs, tIME}

  /** Text and time chunks: after IDAT they revoke IDAT. */
  const RevokingChunks: set<ChunkType> := {tIME, iTXt, tEXt, zTXt}

  /** The state before the first chunk: nothing seen, only IHDR allowed. */
  const Initial: ValidationSets := ValidationSets({}, {IHDR})

  /** `validate_chunk`: one step of the automaton. */
  function ValidateChunk(acc: ValidationSets, t: ChunkType): (r: Result<ValidationSets, OrderingError>)
    ensures r.Ok? <==> t in acc.authorized && !t.Unknown?
    ensures t !in acc.authorized ==> r == Err(Unauthorized(t))
    ensures r.Ok? ==> r.value.present == acc.present + {t}
    ensures r.Ok? && t != IHDR && t != IDAT ==> r.value.authorized <= acc.authorized
    ensures r.Ok? && t == IDAT ==> r.value.authorized <= acc.authorized + {IEND}
    ensures r.Ok? && t in UniqueChunks ==> t !in r.value.authorized
    ensures r.Ok? && t == IEND ==> r.value.authorized == {}
  {
    if t !in acc.authorized then Err(Unauthorized(t))
    else
      var present := acc.present + {t};
      var authorized := acc.authorized;
      match t
      // critical chunks
      case IHDR => Ok(ValidationSets(present, StartChunks))
      case PLTE => Ok(ValidationSets(present, authorized - BeforePlteChunks))
      case IDAT =>
        if IDAT !in acc.present then
          Ok(ValidationSets(present, authorized - BeforeIdatChunks + {IEND}))
        else
          Ok(acc)
      case IEND => Ok(ValidationSets(present, {}))
      // before PLTE and IDAT
      case cHRM => Ok(ValidationSets(present, authorized - {cHRM}))
      case gAMA => Ok(ValidationSets(present, authorized - {gAMA}))
      case iCCP => Ok(ValidationSets(present, authorized - {iCCP}))
      case sBIT => Ok(ValidationSets(present, authorized - {sBIT}))
      case sRGB => Ok(ValidationSets(present, authorized - {sRGB}))
      // after PLTE, before IDAT
      case bKGD => Ok(ValidationSets(present, authorized - {PLTE, bKGD}))
      case hIST => Ok(ValidationSets(present, authorized - {PLTE, hIST}))
      case tRNS => Ok(ValidationSets(present, authorized - {PLTE, tRNS}))
      // before IDAT
      case pHYs => Ok(ValidationSets(present, authorized - {pHYs}))
      case sPLT => Ok(ValidationSets(present, authorized))
      // anywhere; after IDAT they end the IDAT run
      case tIME =>
        var a := authorized - {tIME};
        Ok(ValidationSets(present, if IDAT in present then a - {IDAT} else a))
      case iTXt => Ok(ValidationSets(present, if IDAT in present then authorized - {IDAT} else authorized))
      case tEXt => Ok(ValidationSets(present, if IDAT in present then authorized - {IDAT} else authorized))
      case zTXt => Ok(ValidationSets(present, if IDAT in present then authorized - {IDAT} else authorized))
      case Unknown(name) => Err(NotHandled(name))
  }

  /** The set of types occurring in `ts`. */
  function Seen(ts: seq<ChunkType>): set<ChunkType> {
    set i | 0 <= i < |ts| :: ts[i]
  }

  /** The `try_fold` of `ValidateChunk` over `ts`, stopping at the first error. */
  function Fold(acc: ValidationSets, ts: seq<ChunkType>): (r: Result<ValidationSets, OrderingError>)
    ensures r.Ok? ==> r.value.present == acc.present + Seen(ts)
    decreases |ts|
  {
    if ts == [] then Ok(acc)
    else
      match ValidateChunk(acc, ts[0])
      case Err(e) => Err(e)
      case Ok(next) =>
        var r := Fold(next, ts[1..]);
        assert Seen(ts) == {ts[0]} + Seen(ts[1..]) by {
          forall t | t in Seen(ts) ensures t in {ts[0]} + Seen(ts[1..]) {
            var i :| 0 <= i < |ts| && ts[i] == t;
            if i > 0 { assert ts[1..][i - 1] == t; }
          }
          forall t | t in Seen(ts[1..]) ensures t in Seen(ts) {
            var i :| 0 <= i < |ts[1..]| && ts[1..][i] == t;
            assert ts[i + 1] == t;
          }
        }
        r
  }

  function Types(chunks: seq<Chunk>): (ts: seq<ChunkType>)
    ensures |ts| == |chunks|
    ensures forall i :: 0 <= i < |chunks| ==> ts[i] == chunks[i].chunkType
  {
    seq(|chunks|, i requires 0 <= i < |chunks| => chunks[i].chunkType)
  }

  predicate Accepts(ts: seq<ChunkType>) {
    Fold(Initial, ts).Ok?
  }

  /** `validate_chunk_constraints`: runs the automaton from `Initial` and, on
      success, hands back its input unchanged. The final state is not checked,
      so a stream need not end with IEND. */
  function ValidateChunkConstraints(chunks: seq<Chunk>): (r: Result<seq<Chunk>, OrderingError>)
    ensures r.Ok? <==> Accepts(Types(chunks))
    ensures r.Ok? ==> r.value == chunks
    ensures r.Err? ==> Fold(Initial, Types(chunks)) == Err(r.error)
  {
    match Fold(Initial, Types(chunks))
    case Err(e) => Err(e)
    case Ok(_) => Ok(chunks)
  }

  // ---------------------------------------------------------------------------
  // The invariant of reachable states

  /** What every state reached from `Initial` satisfies. */
  ghost predicate Inv(s: ValidationSets) {
    && (s.present == {} ==> s.authorized == {IHDR})
    && (s.present != {} ==> IHDR in s.present && s.authorized <= StartChunks + {IEND})
    && (IEND in s.authorized ==> IDAT in s.present)
    && (IDAT in s.present ==> s.authorized * BeforeIdatChunks == {})
    && (IEND in s.present ==> s.authorized == {})
  }

  lemma InitialInv()
    ensures Inv(Initial)
  {
  }

  lemma StepInv(s: ValidationSets, t: ChunkType)
    requires Inv(s) && ValidateChunk(s, t).Ok?
    ensures Inv(ValidateChunk(s, t).value)
  {
  }

  lemma {:induction false} FoldInv(s: ValidationSets, ts: seq<ChunkType>)
    requires Inv(s) && Fold(s, ts).Ok?
    ensures Inv(Fold(s, ts).value)
    decreases |ts|
  {
    if ts != [] {
      StepInv(s, ts[0]);
      FoldInv(ValidateChunk(s, ts[0]).value, ts[1..]);
    }
  }

  /** Folding over `a + b` is folding over `a`, then over `b`. */
  lemma {:induction false} FoldAppend(s: ValidationSets, a: seq<ChunkType>, b: seq<ChunkType>)
    ensures Fold(s, a + b) == (match Fold(s, a) case Err(e) => Err(e) case Ok(s') => Fold(s', b))
    decreases |a|
  {
    if a == [] {
      assert a + b == b;
    } else {
      assert (a + b)[0] == a[0];
      assert (a + b)[1..] == a[1..] + b;
      match ValidateChunk(s, a[0])
      case Err(e) =>
      case Ok(next) => FoldAppend(next, a[1..], b);
    }
  }

  /** A type is out for good: it is not authorized now, and nothing that can
      still be accepted will authorize it again. */
  ghost predicate Revoked(s: ValidationSets, t: ChunkType) {
    && s.present != {}
    && t !in s.authorized
    && (t == IEND ==> IDAT in s.present)
  }

  lemma StepRevoked(s: ValidationSets, u: ChunkType, t: ChunkType)
    requires Inv(s) && Revoked(s, t) && ValidateChunk(s, u).Ok?
    ensures Revoked(ValidateChunk(s, u).value, t)
  {
  }

  /** Once revoked, a type makes every later sequence containing it fail. */
  lemma {:induction false} RevokedIsRejected(s: ValidationSets, ts: seq<ChunkType>, t: ChunkType)
    requires Inv(s) && Revoked(s, t) && t in ts
    ensures Fold(s, ts).Err?
    decreases |ts|
  {
    if ts[0] != t {
      match ValidateChunk(s, ts[0])
      case Err(_) =>
      case Ok(next) =>
        StepInv(s, ts[0]);
        StepRevoked(s, ts[0], t);
        RevokedIsRejected(next, ts[1..], t);
    }
  }

  /** The state in which an accepted sequence meets its `i`-th chunk. */
  lemma AcceptedAt(ts: seq<ChunkType>, i: nat) returns (s: ValidationSets, s': ValidationSets)
    requires Accepts(ts) && i < |ts|
    ensures Fold(Initial, ts[..i]) == Ok(s)
    ensures Inv(s) && s.present == Seen(ts[..i])
    ensures ValidateChunk(s, ts[i]) == Ok(s')
    ensures Inv(s') && Fold(s', ts[i + 1..]).Ok?
  {
    FoldAppend(Initial, ts[..i], ts[i..]);
    assert ts[..i] + ts[i..] == ts;
    s := Fold(Initial, ts[..i]).value;
    InitialInv();
    FoldInv(Initial, ts[..i]);
    s' := ValidateChunk(s, ts[i]).value;
    StepInv(s, ts[i]);
    assert ts[i..][0] == ts[i] && ts[i..][1..] == ts[i + 1..];
  }

  lemma SeenPrefix(ts: seq<ChunkType>, j: nat, i: nat)
    requires j < i <= |ts|
    ensures ts[j] in Seen(ts[..i])
  {
    assert ts[..i][j] == ts[j];
  }

  lemma InSuffix(ts: seq<ChunkType>, i: nat, j: nat)
    requires i < j < |ts|
    ensures ts[j] in ts[i + 1..]
  {
    assert ts[i + 1..][j - i - 1] == ts[j];
  }

  // ---------------------------------------------------------------------------
  // What the automaton accepts and rejects

  /** The first chunk must be IHDR: anything else is unauthorized. */
  lemma FirstMustBeIhdr(ts: seq<ChunkType>)
    requires ts != [] && ts[0] != IHDR
    ensures Fold(Initial, ts) == Err(Unauthorized(ts[0]))
  {
  }

  /** An accepted sequence contains no `Unknown` chunk. */
  lemma AcceptedHasNoUnknown(ts: seq<ChunkType>, i: nat)
    requires Accepts(ts) && i < |ts|
    ensures !ts[i].Unknown?
  {
    var s, s' := AcceptedAt(ts, i);
  }

  /** IHDR, PLTE, IEND and the non-repeatable ancillary chunks occur at most once. */
  lemma UniqueChunksOccurOnce(ts: seq<ChunkType>, i: nat, j: nat)
    requires Accepts(ts) && i < j < |ts| && ts[i] in UniqueChunks
    ensures ts[j] != ts[i]
  {
    var s, s' := AcceptedAt(ts, i);
    if ts[j] == ts[i] {
      if ts[i] == IEND {
        assert IDAT in s.present;
      }
      assert Revoked(s', ts[i]);
      InSuffix(ts, i, j);
      RevokedIsRejected(s', ts[i + 1..], ts[i]);
    }
  }

  /** Nothing may follow IEND. */
  lemma IendIsLast(ts: seq<ChunkType>, i: nat)
    requires Accepts(ts) && i < |ts| && ts[i] == IEND
    ensures i == |ts| - 1
  {
    var s, s' := AcceptedAt(ts, i);
  }

  /** IEND is only authorized after some IDAT. */
  lemma IendFollowsIdat(ts: seq<ChunkType>, i: nat) returns (j: nat)
    requires Accepts(ts) && i < |ts| && ts[i] == IEND
    ensures j < i && ts[j] == IDAT
  {
    var s, s' := AcceptedAt(ts, i);
    assert IDAT in Seen(ts[..i]);
    var k :| 0 <= k < i && ts[..i][k] == IDAT;
    j := k;
  }

  /** Once an IDAT has been seen, no type of `BeforeIdatChunks` is accepted. */
  lemma NothingBeforeIdatAfterIdat(ts: seq<ChunkType>, i: nat, j: nat)
    requires Accepts(ts) && i < j < |ts| && ts[i] == IDAT
    ensures ts[j] !in BeforeIdatChunks
  {
    var s, s' := AcceptedAt(ts, i);
    if ts[j] in BeforeIdatChunks {
      assert Revoked(s', ts[j]);
      InSuffix(ts, i, j);
      RevokedIsRejected(s', ts[i + 1..], ts[j]);
    }
  }

  /** PLTE closes the types of `BeforePlteChunks` (PLTE itself included). */
  lemma NothingBeforePlteAfterPlte(ts: seq<ChunkType>, i: nat, j: nat)
    requires Accepts(ts) && i < j < |ts| && ts[i] == PLTE
    ensures ts[j] !in BeforePlteChunks
  {
    var s, s' := AcceptedAt(ts, i);
    assert s'.authorized == s.authorized - BeforePlteChunks;
    if ts[j] in BeforePlteChunks {
      assert ts[j] !in s'.authorized && ts[i] in s'.present;
      BeforePlteIsNotIend(ts[j]);
      assert Revoked(s', ts[j]);
      InSuffix(ts, i, j);
      RevokedIsRejected(s', ts[i + 1..], ts[j]);
    }
  }

  lemma BeforePlteIsNotIend(t: ChunkType)
    requires t in BeforePlteChunks
    ensures t != IEND
  {
  }

  /** bKGD, hIST and tRNS close PLTE. */
  lemma NoPlteAfterPaletteAncillary(ts: seq<ChunkType>, i: nat, j: nat)
    requires Accepts(ts) && i < j < |ts| && ts[i] in {bKGD, hIST, tRNS}
    ensures ts[j] != PLTE
  {
    var s, s' := AcceptedAt(ts, i);
    if ts[j] == PLTE {
      assert Revoked(s', PLTE);
      InSuffix(ts, i, j);
      RevokedIsRejected(s', ts[i + 1..], PLTE);
    }
  }

  /** IDAT chunks form one contiguous run: anything accepted between two
      IDATs is an IDAT. */
  lemma IdatRunIsContiguous(ts: seq<ChunkType>, i: nat, j: nat, k: nat)
    requires Accepts(ts) && i < j < k < |ts| && ts[i] == IDAT && ts[k] == IDAT
    ensures ts[j] == IDAT
  {
    var s, s' := AcceptedAt(ts, j);
    SeenPrefix(ts, i, j);
    if ts[j] != IDAT {
      assert Revoked(s', IDAT);
      InSuffix(ts, j, k);
      RevokedIsRejected(s', ts[j + 1..], IDAT);
    }
  }

  /** A text chunk between two IDATs is rejected. */
  lemma TextBetweenIdatsRejected(ts: seq<ChunkType>, i: nat, j: nat, k: nat)
    requires i < j < k < |ts| && ts[i] == IDAT && ts[j] == tEXt && ts[k] == IDAT
    ensures !Accepts(ts)
  {
    if Accepts(ts) {
      IdatRunIsContiguous(ts, i, j, k);
    }
  }

  /** The minimal image is accepted and ends in the terminal state. */
  lemma AcceptsMinimalImage()
    ensures Fold(Initial, [IHDR, IDAT, IEND]) == Ok(ValidationSets({IHDR, IDAT, IEND}, {}))
  {
    var r1 := ValidateChunk(Initial, IHDR);
    assert r1.Ok? && r1.value.authorized == StartChunks;
    var r2 := ValidateChunk(r1.value, IDAT);
    assert r2.Ok? && IEND in r2.value.authorized;
    var r3 := ValidateChunk(r2.value, IEND);
    assert r3.Ok? && r3.value.present == {IHDR, IDAT, IEND} && r3.value.authorized == {};
    assert [IHDR, IDAT, IEND][1..] == [IDAT, IEND] && [IDAT, IEND][1..] == [IEND] && [IEND][1..] == [];
  }

  /** The final state is not checked: a stream without IEND is accepted. */
  lemma AcceptsMissingIend()
    ensures Accepts([IHDR, IDAT])
  {
    var r1 := ValidateChunk(Initial, IHDR);
    assert r1.Ok? && r1.value.authorized == StartChunks;
    assert ValidateChunk(r1.value, IDAT).Ok?;
    assert [IHDR, IDAT][1..] == [IDAT] && [IDAT][1..] == [];
  }

  /** The rejections PNG 1.2, section 4.3 calls for, on concrete sequences:
      IDAT before IHDR, two PLTEs, PLTE after IDAT, a chunk after IEND, an
      unknown chunk, and a text chunk splitting the IDAT run. */
  lemma RejectsIdatFirst()
    ensures Fold(Initial, [IDAT, IHDR, IEND]) == Err(Unauthorized(IDAT))
  {
    FirstMustBeIhdr([IDAT, IHDR, IEND]);
  }

  lemma RejectsTwoPalettes()
    ensures !Accepts([IHDR, PLTE, PLTE, IDAT, IEND])
  {
  }

  lemma RejectsPaletteAfterIdat()
    ensures !Accepts([IHDR, IDAT, PLTE, IEND])
  {
    if Accepts([IHDR, IDAT, PLTE, IEND]) {
      NothingBeforeIdatAfterIdat([IHDR, IDAT, PLTE, IEND], 1, 2);
    }
  }

  lemma RejectsChunkAfterIend()
    ensures !Accepts([IHDR, IDAT, IEND, tEXt])
  {
  }

  lemma RejectsUnknown()
    ensures !Accepts([IHDR, Unknown("abcd"), IDAT, IEND])
  {
  }

  lemma RejectsTextInIdatRun()
    ensures !Accepts([IHDR, IDAT, tEXt, IDAT, IEND])
  {
    TextBetweenIdatsRejected([IHDR, IDAT, tEXt, IDAT, IEND], 1, 2, 3);
  }
}
