/** The requirement set of a signature: one requirement over the bundle identifier and the certificate's
    subject, as the signer writes it, and a reader of the requirement language. */
module RequirementSet {
  import opened Bytes
  import opened CodeDirectory

  // ---------------------------------------------------------------- building

  function Pad4(s: seq<byte>): seq<byte> {
    s + Zeros((4 - |s| % 4) % 4)
  }

  const RULE: seq<u32> := [6, 15, 6, 11, 0, 10, 0x7375_626a, 0x6563_742e, 0x434e_0000, 1]
  const OID_RULE: seq<u32> := [14, 1, 10, 0x2a86_4886, 0xf763_6406, 0x0201_0000, 0]

  function InnerLength(bundleId: seq<byte>, subjectCN: seq<byte>): nat {
    4 + 4 + 12 + (4 + |Pad4(bundleId)|) + 40 + (4 + |Pad4(subjectCN)|) + 28
  }

  /** `SlotBuildRequirements`: an empty requirement set when a name is missing, otherwise one
      requirement over the bundle identifier and the certificate's subject. */
  function Requirements(bundleId: seq<byte>, subjectCN: seq<byte>): seq<byte>
    requires InnerLength(bundleId, subjectCN) + 20 < TWO32
  {
    if bundleId == [] || subjectCN == [] then Words([0xfade_0c01, 12, 0])
    else
      Words([0xfade_0c01, 20 + InnerLength(bundleId, subjectCN), 1, 3, 20,
             0xfade_0c00, InnerLength(bundleId, subjectCN), 1, 6, 2, |bundleId|])
      + Pad4(bundleId) + (Words(RULE) + Words([|subjectCN|])) + Pad4(subjectCN) + Words(OID_RULE)
  }

  lemma PaddedTo4(s: seq<byte>)
    ensures Pad4(s) == s + Zeros(if |s| % 4 != 0 then 4 - |s| % 4 else 0)
    ensures |Pad4(s)| % 4 == 0 && |s| <= |Pad4(s)|
  {
    hide Zeros;
    UpTo4(|s|);
  }

  lemma UpTo4(n: nat)
    ensures (4 - n % 4) % 4 == (if n % 4 != 0 then 4 - n % 4 else 0)
    ensures (n + (4 - n % 4) % 4) % 4 == 0
  {
  }

  method BuildRequirements(bundleId: seq<byte>, subjectCN: seq<byte>) returns (output: seq<byte>)
    requires InnerLength(bundleId, subjectCN) + 20 < TWO32
    ensures output == Requirements(bundleId, subjectCN)
  {
    hide Words, Pad4, Zeros;
    PaddedTo4(bundleId);
    PaddedTo4(subjectCN);
    if bundleId == [] || subjectCN == [] {
      return Words([0xfade_0c01, 12, 0]);
    }
    var paddedBundleId := bundleId + Zeros(if |bundleId| % 4 != 0 then 4 - |bundleId| % 4 else 0);
    var paddedSubjectId := subjectCN + Zeros(if |subjectCN| % 4 != 0 then 4 - |subjectCN| % 4 else 0);
    var length2 := 4 + 4 + 12;
    length2 := length2 + 4 + |paddedBundleId|;
    length2 := length2 + 40;
    length2 := length2 + 4 + |paddedSubjectId|;
    length2 := length2 + 28;
    var length1 := 4 + 4 + 12 + length2;
    output := Words([0xfade_0c01, length1, 1, 3, 20, 0xfade_0c00, length2, 1, 6, 2, |bundleId|]);
    output := output + paddedBundleId;
    output := output + (Words(RULE) + Words([|subjectCN|]));
    output := output + paddedSubjectId;
    output := output + Words(OID_RULE);
  }

  /** Both length fields are true, the inner requirement starts where the index says, everything is
      four-byte aligned, and each name follows its own length. */
  lemma RequirementsLayout(bundleId: seq<byte>, subjectCN: seq<byte>)
    requires InnerLength(bundleId, subjectCN) + 20 < TWO32
    ensures var b := Requirements(bundleId, subjectCN);
            12 <= |b| && BigU32At(b, 4) == |b| && |b| % 4 == 0
    ensures bundleId != [] && subjectCN != [] ==>
      var b, subject := Requirements(bundleId, subjectCN), 44 + |Pad4(bundleId)| + 40;
      && |b| == 20 + InnerLength(bundleId, subjectCN)
      && BigU32At(b, 16) == 20
      && BigU32At(b, 24) == |b| - 20
      && BigU32At(b, 40) == |bundleId|
      && b[44..44 + |bundleId|] == bundleId
      && BigU32At(b, subject) == |subjectCN|
      && b[subject + 4..subject + 4 + |subjectCN|] == subjectCN
  {
    hide Words, BE32, BigU32At, Zeros;
    var b := Requirements(bundleId, subjectCN);
    PadLengths(bundleId, subjectCN);
    if bundleId == [] || subjectCN == [] {
      WordAt([0xfade_0c01, 12, 0], 1, b);
    } else {
      var ws := [0xfade_0c01, 20 + InnerLength(bundleId, subjectCN), 1, 3, 20,
                 0xfade_0c00, InnerLength(bundleId, subjectCN), 1, 6, 2, |bundleId|];
      var p, mid, q := Pad4(bundleId), Words(RULE) + Words([|subjectCN|]), Pad4(subjectCN);
      Regions(b, Words(ws), p, mid, q, Words(OID_RULE));
      RequirementHead(b, ws);
      PaddedFront(b, 44, bundleId);
      SubjectLength(b, 44 + |p|, |subjectCN|);
      PaddedFront(b, 44 + |p| + 44, subjectCN);
    }
  }

  lemma PadLengths(bundleId: seq<byte>, subjectCN: seq<byte>)
    ensures |Pad4(bundleId)| % 4 == 0 && |bundleId| <= |Pad4(bundleId)|
    ensures |Pad4(subjectCN)| % 4 == 0 && |subjectCN| <= |Pad4(subjectCN)|
    ensures (20 + InnerLength(bundleId, subjectCN)) % 4 == 0
  {
    hide Pad4;
    PaddedTo4(bundleId);
    PaddedTo4(subjectCN);
  }

  lemma RequirementHead(b: seq<byte>, ws: seq<u32>)
    requires |ws| == 11 && 44 <= |b| && b[..44] == Words(ws)
    ensures BigU32At(b, 4) == ws[1] && BigU32At(b, 16) == ws[4] && BigU32At(b, 24) == ws[6] && BigU32At(b, 40) == ws[10]
  {
    hide Words, BigU32At;
    WordAt(ws, 1, b);
    WordAt(ws, 4, b);
    WordAt(ws, 6, b);
    WordAt(ws, 10, b);
  }

  lemma SubjectLength(b: seq<byte>, at: nat, n: u32)
    requires at + 44 <= |b| && b[at..at + 44] == Words(RULE) + Words([n])
    ensures BigU32At(b, at + 40) == n
  {
    hide Words, BigU32At;
    var mid := Words(RULE) + Words([n]);
    WordsAppend(RULE, [n]);
    WordAt(RULE + [n], 10, mid);
    SliceOfSlice(b, at, at + 44, 40, 44);
    SameU32(b, at + 40, mid, 40);
  }

  lemma PaddedFront(b: seq<byte>, at: nat, s: seq<byte>)
    requires at + |Pad4(s)| <= |b| && b[at..at + |Pad4(s)|] == Pad4(s)
    ensures b[at..at + |s|] == s
  {
    SliceOfSlice(b, at, at + |Pad4(s)|, 0, |s|);
    assert Pad4(s)[..|s|] == s;
  }

  // ---------------------------------------------------------------- reading the requirement

  datatype Requirement =
    | Ident(name: seq<byte>)
    | AppleGenericAnchor
    | CertField(slot: u32, field: seq<byte>, equal: seq<byte>)
    | CertGeneric(slot: u32, oid: seq<byte>)
    | And(left: Requirement, right: Requirement)

  /** A length and as many bytes, padded to a multiple of four. */
  function ReadData(s: seq<byte>): (r: Option<(seq<byte>, seq<byte>)>)
    ensures r.Some? ==> |r.value.1| + 4 <= |s|
  {
    if |s| < 4 then None
    else
      var n := BigU32At(s, 0);
      var padded := n + (4 - n % 4) % 4;
      if 4 + padded <= |s| then Some((s[4..4 + n], s[4 + padded..])) else None
  }

  /** An expression of the requirement language and what follows it: the operators 2 (identifier), 6 (both),
      11 (field of a certificate, here compared for equality), 14 (extension of a certificate, here asked to
      exist) and 15 (anchored with Apple). */
  function ReadRequirement(s: seq<byte>): (r: Option<(Requirement, seq<byte>)>)
    ensures r.Some? ==> |r.value.1| + 4 <= |s|
    decreases |s|
  {
    if |s| < 4 then None
    else
      match BigU32At(s, 0)
      case 2 =>
        (match ReadData(s[4..])
         case None => None
         case Some((name, rest)) => Some((Ident(name), rest)))
      case 6 =>
        (match ReadRequirement(s[4..])
         case None => None
         case Some((left, more)) =>
           match ReadRequirement(more)
           case None => None
           case Some((right, rest)) => Some((And(left, right), rest)))
      case 11 => ReadCertField(s[4..])
      case 14 => ReadCertGeneric(s[4..])
      case 15 => Some((AppleGenericAnchor, s[4..]))
      case _ => None
  }

  function ReadCertField(s: seq<byte>): (r: Option<(Requirement, seq<byte>)>)
    ensures r.Some? ==> |r.value.1| + 4 <= |s|
  {
    if |s| < 4 then None
    else
      match ReadData(s[4..])
      case None => None
      case Some((field, more)) =>
        if |more| < 4 || BigU32At(more, 0) != 1 then None
        else
          match ReadData(more[4..])
          case None => None
          case Some((value, rest)) => Some((CertField(BigU32At(s, 0), field, value), rest))
  }

  function ReadCertGeneric(s: seq<byte>): (r: Option<(Requirement, seq<byte>)>)
    ensures r.Some? ==> |r.value.1| + 4 <= |s|
  {
    if |s| < 4 then None
    else
      match ReadData(s[4..])
      case None => None
      case Some((oid, rest)) =>
        if |rest| < 4 || BigU32At(rest, 0) != 0 then None else Some((CertGeneric(BigU32At(s, 0), oid), rest[4..]))
  }

  // "subject.CN", and the object identifier 1.2.840.113635.100.6.2.1
  const SUBJECT_CN: seq<byte> := [0x73, 0x75, 0x62, 0x6a, 0x65, 0x63, 0x74, 0x2e, 0x43, 0x4e]
  const DEVELOPER_OID: seq<byte> := [0x2a, 0x86, 0x48, 0x86, 0xf7, 0x63, 0x64, 0x06, 0x02, 0x01]

  function Data(d: seq<byte>): seq<byte>
    requires |d| < TWO32
  {
    Words([|d|]) + Pad4(d)
  }

  lemma WordThen(w: u32, t: seq<byte>)
    ensures |Words([w]) + t| >= 4 && BigU32At(Words([w]) + t, 0) == w && (Words([w]) + t)[4..] == t
  {
    hide Words, BigU32At;
    var b := Words([w]) + t;
    assert b[..4 * 1] == Words([w]);
    WordAt([w], 0, b);
  }

  lemma DataThen(d: seq<byte>, t: seq<byte>)
    requires |d| < TWO32
    ensures ReadData(Data(d) + t) == Some((d, t))
  {
    hide Words, BigU32At, Zeros;
    var s := Words([|d|]) + (Pad4(d) + t);
    assert Data(d) + t == s;
    WordThen(|d|, Pad4(d) + t);
    assert s[4..4 + |d|] == s[4..][..|d|] == d;
    assert s[4 + |Pad4(d)|..] == s[4..][|Pad4(d)|..] == t;
  }

  lemma GenericReads(t: seq<byte>)
    ensures ReadRequirement(Words([14]) + (Words([1]) + (Data(DEVELOPER_OID) + (Words([0]) + t))))
         == Some((CertGeneric(1, DEVELOPER_OID), t))
  {
    hide Words, BigU32At, Data, ReadData;
    WordThen(0, t);
    DataThen(DEVELOPER_OID, Words([0]) + t);
    WordThen(1, Data(DEVELOPER_OID) + (Words([0]) + t));
    WordThen(14, Words([1]) + (Data(DEVELOPER_OID) + (Words([0]) + t)));
  }

  lemma FieldReads(subject: seq<byte>, t: seq<byte>)
    requires |subject| < TWO32
    ensures ReadRequirement(Words([11]) + (Words([0]) + (Data(SUBJECT_CN) + (Words([1]) + (Data(subject) + t)))))
         == Some((CertField(0, SUBJECT_CN, subject), t))
  {
    hide Words, BigU32At, Data, ReadData;
    DataThen(subject, t);
    WordThen(1, Data(subject) + t);
    DataThen(SUBJECT_CN, Words([1]) + (Data(subject) + t));
    WordThen(0, Data(SUBJECT_CN) + (Words([1]) + (Data(subject) + t)));
    WordThen(11, Words([0]) + (Data(SUBJECT_CN) + (Words([1]) + (Data(subject) + t))));
  }

  lemma BothRead(x: seq<byte>, y: seq<byte>, left: Requirement, right: Requirement, t: seq<byte>)
    requires ReadRequirement(x) == Some((left, y)) && ReadRequirement(y) == Some((right, t))
    ensures ReadRequirement(Words([6]) + x) == Some((And(left, right), t))
  {
    hide Words, BigU32At, ReadData, ReadCertField, ReadCertGeneric;
    WordThen(6, x);
  }

  lemma IdentReads(name: seq<byte>, t: seq<byte>)
    requires |name| < TWO32
    ensures ReadRequirement(Words([2]) + (Data(name) + t)) == Some((Ident(name), t))
  {
    hide Words, BigU32At, Data, ReadData, ReadCertField, ReadCertGeneric;
    DataThen(name, t);
    WordThen(2, Data(name) + t);
  }

  lemma AnchorReads(t: seq<byte>)
    ensures ReadRequirement(Words([15]) + t) == Some((AppleGenericAnchor, t))
  {
    hide Words, BigU32At, ReadData, ReadCertField, ReadCertGeneric;
    WordThen(15, t);
  }

  /** The expression the signer writes, taken apart. */
  function Expression(bundleId: seq<byte>, subjectCN: seq<byte>): seq<byte>
    requires |bundleId| < TWO32 && |subjectCN| < TWO32
  {
    Words([6])
    + (Words([2]) + (Data(bundleId)
    + (Words([6])
    + (Words([15])
    + (Words([6])
    + (Words([11]) + (Words([0]) + (Data(SUBJECT_CN) + (Words([1]) + (Data(subjectCN)
    + (Words([14]) + (Words([1]) + (Data(DEVELOPER_OID) + (Words([0]) + []))))))))))))))
  }

  lemma ExpressionReads(bundleId: seq<byte>, subjectCN: seq<byte>)
    requires |bundleId| < TWO32 && |subjectCN| < TWO32
    ensures ReadRequirement(Expression(bundleId, subjectCN))
         == Some((And(Ident(bundleId),
                      And(AppleGenericAnchor, And(CertField(0, SUBJECT_CN, subjectCN), CertGeneric(1, DEVELOPER_OID)))),
                  []))
  {
    hide Words, Data, ReadRequirement;
    var generic := Words([14]) + (Words([1]) + (Data(DEVELOPER_OID) + (Words([0]) + [])));
    var field := Words([11]) + (Words([0]) + (Data(SUBJECT_CN) + (Words([1]) + (Data(subjectCN) + generic))));
    var both := Words([6]) + field;
    var anchored := Words([6]) + (Words([15]) + both);
    GenericReads([]);
    FieldReads(subjectCN, generic);
    BothRead(field, generic, CertField(0, SUBJECT_CN, subjectCN), CertGeneric(1, DEVELOPER_OID), []);
    AnchorReads(both);
    BothRead(Words([15]) + both, both, AppleGenericAnchor,
             And(CertField(0, SUBJECT_CN, subjectCN), CertGeneric(1, DEVELOPER_OID)), []);
    IdentReads(bundleId, anchored);
    BothRead(Words([2]) + (Data(bundleId) + anchored), anchored, Ident(bundleId),
             And(AppleGenericAnchor, And(CertField(0, SUBJECT_CN, subjectCN), CertGeneric(1, DEVELOPER_OID))), []);
  }

  /** What a reader makes of a requirement set: the empty set when a name is missing; else one designated
      requirement, for an application with this identifier that a developer certificate anchored with Apple has
      signed, the certificate's subject being this one. */
  predicate RequirementsSay(b: seq<byte>, bundleId: seq<byte>, subjectCN: seq<byte>) {
    && 12 <= |b| && BigU32At(b, 0) == 0xfade_0c01 && BigU32At(b, 4) == |b|
    && if bundleId == [] || subjectCN == [] then BigU32At(b, 8) == 0 && |b| == 12
       else
         && 32 <= |b| && BigU32At(b, 8) == 1 && BigU32At(b, 12) == 3 && BigU32At(b, 16) == 20
         && BigU32At(b, 20) == 0xfade_0c00 && BigU32At(b, 24) == |b| - 20 && BigU32At(b, 28) == 1
         && ReadRequirement(b[32..])
              == Some((And(Ident(bundleId),
                           And(AppleGenericAnchor,
                               And(CertField(0, SUBJECT_CN, subjectCN), CertGeneric(1, DEVELOPER_OID)))),
                       []))
  }

  lemma RequirementsRead(bundleId: seq<byte>, subjectCN: seq<byte>)
    requires InnerLength(bundleId, subjectCN) + 20 < TWO32
    ensures RequirementsSay(Requirements(bundleId, subjectCN), bundleId, subjectCN)
  {
    hide Words, BigU32At, ReadRequirement, Zeros;
    var b := Requirements(bundleId, subjectCN);
    RequirementsLayout(bundleId, subjectCN);
    if bundleId == [] || subjectCN == [] {
      EmptySet(b);
    } else {
      NamesFit(bundleId, subjectCN);
      HeadWords(b, 20 + InnerLength(bundleId, subjectCN), InnerLength(bundleId, subjectCN), |bundleId|,
                Pad4(bundleId) + (Words(RULE) + Words([|subjectCN|])) + Pad4(subjectCN) + Words(OID_RULE));
      BehindHead(bundleId, subjectCN);
      ExpressionReads(bundleId, subjectCN);
    }
  }

  lemma EmptySet(b: seq<byte>)
    requires b == Words([0xfade_0c01, 12, 0])
    ensures |b| == 12 && BigU32At(b, 0) == 0xfade_0c01 && BigU32At(b, 8) == 0
  {
    hide Words, BigU32At;
    WordAt([0xfade_0c01, 12, 0], 0, b);
    WordAt([0xfade_0c01, 12, 0], 2, b);
  }

  lemma NamesFit(bundleId: seq<byte>, subjectCN: seq<byte>)
    requires InnerLength(bundleId, subjectCN) + 20 < TWO32
    ensures |bundleId| < TWO32 && |subjectCN| < TWO32
  {
  }

  /** The words in front of the expression, and where it begins. */
  lemma HeadWords(b: seq<byte>, length1: u32, length2: u32, n: u32, rest: seq<byte>)
    requires b == Words([0xfade_0c01, length1, 1, 3, 20, 0xfade_0c00, length2, 1, 6, 2, n]) + rest
    ensures 32 <= |b| && b[32..] == Words([6]) + (Words([2]) + (Words([n]) + rest))
    ensures BigU32At(b, 0) == 0xfade_0c01 && BigU32At(b, 4) == length1 && BigU32At(b, 8) == 1 && BigU32At(b, 12) == 3
    ensures BigU32At(b, 16) == 20 && BigU32At(b, 20) == 0xfade_0c00 && BigU32At(b, 24) == length2
    ensures BigU32At(b, 28) == 1
  {
    hide Words, BigU32At;
    var front, back := [0xfade_0c01, length1, 1, 3, 20, 0xfade_0c00, length2, 1], [6, 2, n];
    var ws := [0xfade_0c01, length1, 1, 3, 20, 0xfade_0c00, length2, 1, 6, 2, n];
    assert ws == front + back;
    WordsAppend(front, back);
    WordsAppend([6], [2, n]);
    WordsAppend([2], [n]);
    assert back == [6] + [2, n] && [2, n] == [2] + [n];
    assert b[32..] == Words(back) + rest;
    assert b[..44] == Words(ws);
    WordAt(ws, 0, b);
    WordAt(ws, 1, b);
    WordAt(ws, 2, b);
    WordAt(ws, 3, b);
    WordAt(ws, 4, b);
    WordAt(ws, 5, b);
    WordAt(ws, 6, b);
    WordAt(ws, 7, b);
  }

  lemma BehindHead(bundleId: seq<byte>, subjectCN: seq<byte>)
    requires |bundleId| < TWO32 && |subjectCN| < TWO32
    ensures Words([6]) + (Words([2]) + (Words([|bundleId|])
            + (Pad4(bundleId) + (Words(RULE) + Words([|subjectCN|])) + Pad4(subjectCN) + Words(OID_RULE))))
         == Expression(bundleId, subjectCN)
  {
    hide Words, Pad4, Data;
    RuleWords();
    DataIs(bundleId);
    DataIs(subjectCN);
    assert Expression(bundleId, subjectCN)
        == Words([6]) + (Words([2]) + (Words([|bundleId|]) + (Pad4(bundleId) + (Words(RULE) + Words([|subjectCN|]))
           + Pad4(subjectCN) + Words(OID_RULE))));
  }

  lemma DataIs(d: seq<byte>)
    requires |d| < TWO32
    ensures Data(d) == Words([|d|]) + Pad4(d)
  {
  }

  /** The two constant rules word by word. */
  lemma RuleWords()
    ensures Words(RULE)
         == Words([6]) + (Words([15]) + (Words([6]) + (Words([11]) + (Words([0]) + (Data(SUBJECT_CN) + Words([1]))))))
    ensures Words(OID_RULE) == Words([14]) + (Words([1]) + (Data(DEVELOPER_OID) + (Words([0]) + [])))
  {
    hide Words, Data;
    SubjectWords();
    OidWords();
    var subject, oid := [10, 0x7375_626a, 0x6563_742e, 0x434e_0000], [10, 0x2a86_4886, 0xf763_6406, 0x0201_0000];
    assert RULE == [6] + ([15] + ([6] + ([11] + ([0] + (subject + [1])))));
    WordsAppend([6], [15] + ([6] + ([11] + ([0] + (subject + [1])))));
    WordsAppend([15], [6] + ([11] + ([0] + (subject + [1]))));
    WordsAppend([6], [11] + ([0] + (subject + [1])));
    WordsAppend([11], [0] + (subject + [1]));
    WordsAppend([0], subject + [1]);
    WordsAppend(subject, [1]);
    assert OID_RULE == [14] + ([1] + (oid + [0]));
    WordsAppend([14], [1] + (oid + [0]));
    WordsAppend([1], oid + [0]);
    WordsAppend(oid, [0]);
  }

  lemma SubjectWords()
    ensures Data(SUBJECT_CN) == Words([10, 0x7375_626a, 0x6563_742e, 0x434e_0000])
  {
    hide Words, BE32, Data;
    TailWords(10, 0x7375_626a, 0x6563_742e, 0x434e_0000);
    TenPadded(SUBJECT_CN);
    SubjectBytes();
  }

  lemma SubjectBytes()
    ensures SUBJECT_CN + [0, 0] == BE32(0x7375_626a) + BE32(0x6563_742e) + BE32(0x434e_0000)
  {
    assert BE32(0x7375_626a) == [0x73, 0x75, 0x62, 0x6a];
    assert BE32(0x6563_742e) == [0x65, 0x63, 0x74, 0x2e];
    assert BE32(0x434e_0000) == [0x43, 0x4e, 0, 0];
  }

  lemma OidWords()
    ensures Data(DEVELOPER_OID) == Words([10, 0x2a86_4886, 0xf763_6406, 0x0201_0000])
  {
    hide Words, BE32, Data;
    TailWords(10, 0x2a86_4886, 0xf763_6406, 0x0201_0000);
    TenPadded(DEVELOPER_OID);
    OidBytes();
  }

  lemma OidBytes()
    ensures DEVELOPER_OID + [0, 0] == BE32(0x2a86_4886) + BE32(0xf763_6406) + BE32(0x0201_0000)
  {
    assert BE32(0x2a86_4886) == [0x2a, 0x86, 0x48, 0x86];
    assert BE32(0xf763_6406) == [0xf7, 0x63, 0x64, 0x06];
    assert BE32(0x0201_0000) == [0x02, 0x01, 0, 0];
  }

  lemma TenPadded(d: seq<byte>)
    requires |d| == 10
    ensures Data(d) == Words([10]) + (d + [0, 0])
  {
  }

  lemma TailWords(a: u32, b: u32, c: u32, d: u32)
    ensures Words([a, b, c, d]) == Words([a]) + (BE32(b) + BE32(c) + BE32(d))
  {
    hide BE32;
    var none: seq<u32> := [];
    assert [d][1..] == none && [c, d][1..] == [d] && [b, c, d][1..] == [c, d] && [a, b, c, d][1..] == [b, c, d];
    assert Words([d]) == BE32(d) + Words(none) == BE32(d);
    assert Words([c, d]) == BE32(c) + Words([d]);
    assert Words([b, c, d]) == BE32(b) + Words([c, d]) == BE32(b) + BE32(c) + BE32(d);
    assert [a][1..] == none;
    assert Words([a]) == BE32(a) + Words(none) == BE32(a);
  }
}
