/** What a verifier finds in every slice of a file that signing succeeded on. */
module SignedFile {
  import opened Bytes
  import opened LoadCommands
  import opened CommandEdits
  import opened SliceFacts
  import opened SuperBlob
  import opened Signing
  import opened SignatureMeaning
  import opened SignSpace
  import opened SliceSigning
  import opened MachO
  import opened ParseMeaning

  /** What a slice's signature has to speak about: the slice's code, which ends where the signature begins, its file
      type and the memory size of its text, and the settings. */
  function Spoken(r: seq<byte>, codeLength: nat, limit: u64, w: Settings): Input
    requires 16 <= codeLength <= |r|
  {
    Input(w.asset, r[..codeLength], U32At(r, 12) == 2, limit, w.bundleId, w.infoSHA1, w.infoSHA256,
          if w.resources == [] then Zeros(20) else w.f.sha1(w.resources),
          if w.resources == [] then Zeros(32) else w.f.sha256(w.resources))
  }

  /** The last signature command leads to a signature that says what it should of this very slice. */
  ghost predicate SaysItself(r: seq<byte>, w: Settings) {
    && Sliced(r)
    && exists k: nat, limit: u64 :: LastSignature(Cmds(r), k) && SignedAt(r, U32At(Cmds(r)[k], 8), limit, w)
  }

  ghost predicate SignedAt(r: seq<byte>, at: nat, limit: u64, w: Settings)
    requires Sliced(r)
  {
    16 <= at <= |r| && TextMemory(Cmds(r), limit) && SignatureSays(r[at..], Spoken(r, at, limit, w), w.f)
  }

  /** A slice that has been signed carries a signature over itself, whether code slots were taken over or not. */
  lemma OutcomeSays(s: seq<byte>, w: Settings)
    requires HasRoom(s, w)
    ensures SaysItself(Outcome(s, w), w)
  {
    hide U32At, Sliced, RegionsInside, Existing, SlotsFor, Fitting, Slots.Sound, SignedSlice, Tail, SignatureWith,
         SignatureSays, TextMemory;
    var r := Outcome(s, w);
    SignedKeeps(s, w);
    SignatureMeans(InputOf(s, w), w.f, Offered(s, w, CSSLOT_CODEDIRECTORY),
                   Offered(s, w, CSSLOT_ALTERNATE_CODEDIRECTORIES), Tail(r));
    var k := SignaturePlace(r, w);
    assert SignedAt(r, U32At(Cmds(r)[k], 8), ExecLimit(Cmds(r)), w);
  }

  /** Signing writes the signature where its command says and changes no other byte. */
  lemma OutcomeKeeps(s: seq<byte>, w: Settings, i: nat)
    requires HasRoom(s, w) && i < |s|
    ensures |Outcome(s, w)| == |s|
    ensures var at := CodeLen(s);
            Outcome(s, w)[i] == if at <= i < at + |NewBlob(s, w)| then NewBlob(s, w)[i - at] else s[i]
  {
    hide NewBlob, Sliced, Signable;
  }

  lemma SignaturePlace(r: seq<byte>, w: Settings) returns (k: nat)
    requires Announced(r)
    ensures AllParsable(Cmds(r)) && LastSignature(Cmds(r), k) && 16 <= |Cmds(r)[k]|
    ensures TextMemory(Cmds(r), ExecLimit(Cmds(r)))
    ensures var at := U32At(Cmds(r)[k], 8);
            16 <= at <= |r| && r[at..] == Tail(r) && Spoken(r, at, ExecLimit(Cmds(r)), w) == InputOf(r, w)
  {
    hide U32At, Segment, CString;
    FoundMeans(Cmds(r), 0, |r|, HeadEnd(r));
    k :| LastSignature(Cmds(r), k)
      && Found(Cmds(r), 0, |r|, HeadEnd(r)).codeLength == U32At(Cmds(r)[k], 8);
  }

  /** When signing a file succeeds, with or without a reallocation, every slice of the result carries a signature
      that says what it should of that slice as it then is. */
  lemma {:induction false} SignedFileSays(slices: seq<seq<byte>>, w: Settings, realloced: bool)
    requires AllReady(slices, w) && FinalSlices(slices, w, realloced).Some?
    ensures var final := FinalSlices(slices, w, realloced).value;
            |final| == |slices| && forall k :: 0 <= k < |final| ==> SaysItself(final[k], w)
    decreases if realloced then 0 else 1
  {
    hide HasRoom, Ready, CanGrow, GrownSlice, Outcome, SaysItself;
    var n := Misfit(slices, w, 0);
    MisfitMeaning(slices, w, 0);
    SignedUpToReady(slices, w, n);
    if n == |slices| {
      forall k | 0 <= k < |slices| ensures SaysItself(SignedUpTo(slices, w, n)[k], w) {
        OutcomeSays(slices[k], w);
      }
    } else {
      GrownAllReady(SignedUpTo(slices, w, n), w);
      SignedFileSays(GrownAll(SignedUpTo(slices, w, n)), w, true);
    }
  }
}
