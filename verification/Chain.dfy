/** The decision-log hash chain: the writer of `services/api/internal/chain/chain.go`, the Go verifier
    of `services/api/internal/demo/demo.go` and the Python verifier of
    `services/mcpserver/src/forensics_mcp/tools.py`. */
module Chain {
  import opened Hashing

  /** One decision_log row; occurredAt (microseconds) is the only column the hash does not cover. */
  datatype LogRow = LogRow(seqNo: int, subjectHash: Bytes, action: Bytes, basis: Bytes, occurredAt: nat,
                           prevHash: Bytes, hash: Bytes)

  const BAR: Byte := 124
  const MINUS: Byte := 45

  function GenesisPrevHash(): Digest { seq(DIGEST_SIZE, i => 0) }

  function SubjectHash(sha: Sha, subjectId: Bytes): Digest { sha(subjectId) }

  function NatDecimal(n: nat): Bytes {
    if n < 10 then [48 + n] else NatDecimal(n / 10) + [48 + n % 10]
  }

  /** fmt's %d. */
  function Decimal(n: int): Bytes {
    if n < 0 then [MINUS] + NatDecimal(-n) else NatDecimal(n)
  }

  function CanonicalRow(n: int, action: Bytes, basis: Bytes, subjectHash: Bytes): Bytes {
    Decimal(n) + [BAR] + action + [BAR] + basis + subjectHash
  }

  function LinkInput(prevHash: Bytes, n: int, action: Bytes, basis: Bytes, subjectHash: Bytes): Bytes {
    prevHash + CanonicalRow(n, action, basis, subjectHash)
  }

  function Link(sha: Sha, prevHash: Bytes, n: int, action: Bytes, basis: Bytes, subjectHash: Bytes): Digest {
    sha(LinkInput(prevHash, n, action, basis, subjectHash))
  }

  // ----- The verifiers -----

  /** The hash that row i must extend. */
  function PrevOf(rows: seq<LogRow>, i: nat): Bytes
    requires i <= |rows|
  {
    if i == 0 then GenesisPrevHash() else rows[i - 1].hash
  }

  function RowInput(rows: seq<LogRow>, i: nat): Bytes
    requires i < |rows|
  {
    LinkInput(PrevOf(rows, i), rows[i].seqNo, rows[i].action, rows[i].basis, rows[i].subjectHash)
  }

  predicate Linked(sha: Sha, rows: seq<LogRow>, i: nat)
    requires i < |rows|
  {
    sha(RowInput(rows, i)) == rows[i].hash
  }

  /** Every stored hash extends the one before it. */
  predicate Intact(sha: Sha, rows: seq<LogRow>) {
    forall i :: 0 <= i < |rows| ==> Linked(sha, rows, i)
  }

  /** Row i is the first that does not extend its predecessor. */
  predicate BreaksAt(sha: Sha, rows: seq<LogRow>, i: nat)
    requires i < |rows|
  {
    !Linked(sha, rows, i) && forall j :: 0 <= j < i ==> Linked(sha, rows, j)
  }

  datatype ChainResult = ChainResult(intact: bool, checked: nat, breakAtSeq: Option<int>)

  method VerifyChain(sha: Sha, rows: seq<LogRow>) returns (result: ChainResult)
    ensures result.intact <==> Intact(sha, rows)
    ensures result.intact ==> result == ChainResult(true, |rows|, None)
    ensures !result.intact ==> 0 < result.checked <= |rows|
                               && BreaksAt(sha, rows, result.checked - 1)
                               && result.breakAtSeq == Some(rows[result.checked - 1].seqNo)
  {
    hide LinkInput, CanonicalRow, GenesisPrevHash;
    var prev: Bytes := GenesisPrevHash();
    result := ChainResult(true, 0, None);
    for i := 0 to |rows|
      invariant prev == PrevOf(rows, i)
      invariant result == ChainResult(true, i, None)
      invariant forall j :: 0 <= j < i ==> Linked(sha, rows, j)
    {
      var row := rows[i];
      result := result.(checked := result.checked + 1);
      var expected := Link(sha, prev, row.seqNo, row.action, row.basis, row.subjectHash);
      assert Linked(sha, rows, i) <==> expected == row.hash;
      if expected != row.hash {
        return result.(intact := false, breakAtSeq := Some(row.seqNo));
      }
      prev := row.hash;
    }
  }

  datatype PythonResult = Valid(height: nat, headHash: Bytes) | Broken(height: nat, atSeq: int)

  predicate RowValid(sha: Sha, rows: seq<LogRow>, i: nat)
    requires i < |rows|
  {
    rows[i].prevHash == PrevOf(rows, i) && Linked(sha, rows, i)
  }

  predicate FirstInvalid(sha: Sha, rows: seq<LogRow>, i: nat)
    requires i < |rows|
  {
    !RowValid(sha, rows, i) && forall j :: 0 <= j < i ==> RowValid(sha, rows, j)
  }

  /** The Python verifier also compares the stored prev_hash, so its "valid" is the Go "intact" plus
      matching prev_hash columns. */
  method VerifyHashChain(sha: Sha, rows: seq<LogRow>) returns (result: PythonResult)
    ensures result.Valid? <==>
              Intact(sha, rows) && forall i :: 0 <= i < |rows| ==> rows[i].prevHash == PrevOf(rows, i)
    ensures result.Valid? ==> result == Valid(|rows|, PrevOf(rows, |rows|))
    ensures result.Broken? ==> result.height == |rows|
    ensures result.Broken? ==>
              exists k :: 0 <= k < |rows| && FirstInvalid(sha, rows, k) && result.atSeq == rows[k].seqNo
  {
    hide LinkInput, CanonicalRow, GenesisPrevHash;
    var prev: Bytes := GenesisPrevHash();
    for i := 0 to |rows|
      invariant prev == PrevOf(rows, i)
      invariant forall j :: 0 <= j < i ==> RowValid(sha, rows, j)
    {
      var row := rows[i];
      if row.prevHash != prev {
        assert FirstInvalid(sha, rows, i);
        return Broken(|rows|, row.seqNo);
      }
      var expected := Link(sha, prev, row.seqNo, row.action, row.basis, row.subjectHash);
      assert Linked(sha, rows, i) <==> expected == row.hash;
      if expected != row.hash {
        assert FirstInvalid(sha, rows, i);
        return Broken(|rows|, row.seqNo);
      }
      prev := row.hash;
    }
    forall j | 0 <= j < |rows|
      ensures Linked(sha, rows, j) && rows[j].prevHash == PrevOf(rows, j)
    {
      assert RowValid(sha, rows, j);
    }
    return Valid(|rows|, prev);
  }

  // ----- The canonical form is unambiguous -----

  /** The rows the controlled vocabularies produce: no '|' in the action, a 32-byte subject hash. */
  predicate WellFormed(row: LogRow) {
    BAR !in row.action && |row.subjectHash| == DIGEST_SIZE
  }

  predicate SameContent(a: LogRow, b: LogRow) {
    a.seqNo == b.seqNo && a.action == b.action && a.basis == b.basis && a.subjectHash == b.subjectHash
  }

  function DecimalValue(d: Bytes): int {
    if |d| == 0 then 0
    else if d[0] == MINUS then -DecimalValue(d[1..])
    else DecimalValue(d[..|d| - 1]) * 10 + (d[|d| - 1] as int - 48)
  }

  lemma {:induction false} NatDecimalValue(n: nat)
    ensures var d := NatDecimal(n);
            && |d| > 0 && DecimalValue(d) == n && (forall i :: 0 <= i < |d| ==> 48 <= d[i] <= 57)
            && (d[0] == 48 ==> n == 0 && |d| == 1)
  {
    if n >= 10 {
      NatDecimalValue(n / 10);
      var d := NatDecimal(n);
      assert d[..|d| - 1] == NatDecimal(n / 10);
    } else {
      assert DecimalValue([]) == 0;
      assert NatDecimal(n)[..0] == [];
    }
  }

  /** Digits of the right value, no leading zero, and '-' in front exactly of a negative number. */
  lemma DecimalParses(n: int)
    ensures var d := Decimal(n);
            && |d| > 0 && DecimalValue(d) == n && BAR !in d && (n < 0 <==> d[0] == 45) && (d[0] == 48 ==> d == [48])
            && forall i :: (if n < 0 then 1 else 0) <= i < |d| ==> 48 <= d[i] <= 57
  {
    if n < 0 {
      NatDecimalValue(-n);
      assert Decimal(n)[1..] == NatDecimal(-n);
    } else {
      NatDecimalValue(n);
    }
  }

  /** The first '|' separates in only one way. */
  lemma FirstBar(p: Bytes, x: Bytes, q: Bytes, y: Bytes)
    requires BAR !in p && BAR !in q && p + [BAR] + x == q + [BAR] + y
    ensures p == q && x == y
  {
    var whole := p + [BAR] + x;
    assert whole[|p|] == BAR && whole[|q|] == BAR;
    assert forall i :: 0 <= i < |p| ==> whole[i] == p[i] != BAR;
    assert forall i :: 0 <= i < |q| ==> whole[i] == q[i] != BAR;
    assert |p| == |q|;
    assert p == whole[..|p|] == q && x == whole[|p| + 1..] == y;
  }

  /** The text the hash covers after the seq: neither the boundary between action and basis nor that
      between basis and subject hash can be read off it. */
  function Tail(row: LogRow): Bytes { row.action + [BAR] + row.basis + row.subjectHash }

  predicate SameText(a: LogRow, b: LogRow) {
    a.seqNo == b.seqNo && Tail(a) == Tail(b)
  }

  /** Exactly when two rows share one canonical form. */
  lemma CanonicalRowSameIff(a: LogRow, b: LogRow)
    ensures CanonicalRow(a.seqNo, a.action, a.basis, a.subjectHash)
         == CanonicalRow(b.seqNo, b.action, b.basis, b.subjectHash)
         <==> SameText(a, b)
  {
    var x := CanonicalRow(a.seqNo, a.action, a.basis, a.subjectHash);
    var y := CanonicalRow(b.seqNo, b.action, b.basis, b.subjectHash);
    assert x == Decimal(a.seqNo) + [BAR] + Tail(a) && y == Decimal(b.seqNo) + [BAR] + Tail(b);
    if x == y {
      DecimalParses(a.seqNo);
      DecimalParses(b.seqNo);
      FirstBar(Decimal(a.seqNo), Tail(a), Decimal(b.seqNo), Tail(b));
    }
  }

  /** A bar-free action and a subject hash of 32 bytes, both of which a verifier could test, make the
      boundaries readable. */
  lemma SameTextSameContent(a: LogRow, b: LogRow)
    requires WellFormed(a) && WellFormed(b) && SameText(a, b)
    ensures SameContent(a, b)
  {
    var ta, tb := a.basis + a.subjectHash, b.basis + b.subjectHash;
    assert Tail(a) == a.action + [BAR] + ta && Tail(b) == b.action + [BAR] + tb;
    FirstBar(a.action, ta, b.action, tb);
    assert a.basis == ta[..|ta| - DIGEST_SIZE] == b.basis;
    assert a.subjectHash == ta[|ta| - DIGEST_SIZE..] == b.subjectHash;
  }

  lemma CanonicalRowInjective(a: LogRow, b: LogRow)
    requires WellFormed(a) && WellFormed(b)
    requires CanonicalRow(a.seqNo, a.action, a.basis, a.subjectHash)
          == CanonicalRow(b.seqNo, b.action, b.basis, b.subjectHash)
    ensures SameContent(a, b)
  {
    CanonicalRowSameIff(a, b);
    SameTextSameContent(a, b);
  }

  /** Both conditions are needed: a '|' in the action, or a subject hash of another width, lets two
      different rows share one canonical form. */
  lemma CanonicalRowAmbiguous(h: Bytes)
    ensures CanonicalRow(1, [97, BAR, 98], [99], h) == CanonicalRow(1, [97], [98, BAR, 99], h)
    ensures CanonicalRow(1, [97], [98], [99] + h) == CanonicalRow(1, [97], [98, 99], h)
  {
    assert CanonicalRow(1, [97, BAR, 98], [99], h) == Decimal(1) + [BAR, 97, BAR, 98, BAR, 99] + h;
    assert CanonicalRow(1, [97], [98, BAR, 99], h) == Decimal(1) + [BAR, 97, BAR, 98, BAR, 99] + h;
    assert CanonicalRow(1, [97], [98], [99] + h) == Decimal(1) + [BAR, 97, BAR, 98, 99] + h;
    assert CanonicalRow(1, [97], [98, 99], h) == Decimal(1) + [BAR, 97, BAR, 98, 99] + h;
  }

  // ----- Tamper evidence -----

  /** Walking back from the end, the inputs of the last pair of rows that hash different bytes. */
  function ChainClash(a: seq<LogRow>, b: seq<LogRow>): Option<Clash>
    requires |a| == |b|
  {
    if |a| == 0 then None
    else
      var last := |a| - 1;
      if RowInput(a, last) != RowInput(b, last) then Some(Clash(RowInput(a, last), RowInput(b, last)))
      else ChainClash(a[..last], b[..last])
  }

  lemma {:induction false} IntactPrefix(sha: Sha, rows: seq<LogRow>, n: nat)
    requires Intact(sha, rows) && n <= |rows|
    ensures Intact(sha, rows[..n])
  {
    forall i | 0 <= i < n
      ensures Linked(sha, rows[..n], i)
    {
      assert Linked(sha, rows, i);
      assert RowInput(rows[..n], i) == RowInput(rows, i);
    }
  }

  lemma PrevWidth(sha: Sha, rows: seq<LogRow>, i: nat)
    requires Intact(sha, rows) && i <= |rows|
    ensures |PrevOf(rows, i)| == DIGEST_SIZE
  {
    if i > 0 {
      assert Linked(sha, rows, i - 1);
    }
  }

  lemma LinkInputSameIff(p: Bytes, a: LogRow, q: Bytes, b: LogRow)
    requires |p| == |q|
    ensures LinkInput(p, a.seqNo, a.action, a.basis, a.subjectHash)
         == LinkInput(q, b.seqNo, b.action, b.basis, b.subjectHash)
       <==> p == q && SameText(a, b)
  {
    hide CanonicalRow, SameText;
    var ra := CanonicalRow(a.seqNo, a.action, a.basis, a.subjectHash);
    var rb := CanonicalRow(b.seqNo, b.action, b.basis, b.subjectHash);
    CanonicalRowSameIff(a, b);
    if p + ra == q + rb {
      assert p == (p + ra)[..|p|] && q == (q + rb)[..|q|];
      assert ra == (p + ra)[|p|..] && rb == (q + rb)[|q|..];
    }
  }

  /** Two verified logs of one length and one final hash: ChainClash is None exactly when they agree on
      every hash and on the text of every row, and otherwise computes a SHA-256 collision. Rows that
      pass the width and vocabulary test then agree on every hashed column. */
  lemma {:induction false} ChainTamperEvident(sha: Sha, a: seq<LogRow>, b: seq<LogRow>)
    requires |a| == |b| && Intact(sha, a) && Intact(sha, b) && PrevOf(a, |a|) == PrevOf(b, |b|)
    ensures ChainClash(a, b).Some? ==> IsCollision(sha, ChainClash(a, b).value)
    ensures ChainClash(a, b).None? <==> forall i :: 0 <= i < |a| ==> SameText(a[i], b[i]) && a[i].hash == b[i].hash
    ensures ChainClash(a, b).None? ==>
              forall i :: 0 <= i < |a| && WellFormed(a[i]) && WellFormed(b[i]) ==> SameContent(a[i], b[i])
  {
    hide LinkInput, GenesisPrevHash, SameText, SameContent, WellFormed;
    if |a| > 0 {
      var last := |a| - 1;
      assert Linked(sha, a, last) && Linked(sha, b, last);
      PrevWidth(sha, a, last);
      PrevWidth(sha, b, last);
      LinkInputSameIff(PrevOf(a, last), a[last], PrevOf(b, last), b[last]);
      if RowInput(a, last) == RowInput(b, last) {
        IntactPrefix(sha, a, last);
        IntactPrefix(sha, b, last);
        assert PrevOf(a[..last], last) == PrevOf(a, last) && PrevOf(b[..last], last) == PrevOf(b, last);
        ChainTamperEvident(sha, a[..last], b[..last]);
        if WellFormed(a[last]) && WellFormed(b[last]) {
          SameTextSameContent(a[last], b[last]);
        }
      } else {
        DifferentInputs(a, b, last);
      }
    }
  }

  /** Rows that hash different inputs differ in their text or in what they extend. */
  lemma DifferentInputs(a: seq<LogRow>, b: seq<LogRow>, i: nat)
    requires |a| == |b| && i < |a| && RowInput(a, i) != RowInput(b, i)
    ensures !forall j :: 0 <= j < |a| ==> SameText(a[j], b[j]) && a[j].hash == b[j].hash
  {
    hide LinkInput, GenesisPrevHash;
    if forall j :: 0 <= j < |a| ==> SameText(a[j], b[j]) && a[j].hash == b[j].hash {
      assert SameText(a[i], b[i]) && PrevOf(a, i) == PrevOf(b, i);
      LinkInputSameIff(PrevOf(a, i), a[i], PrevOf(b, i), b[i]);
      assert false;
    }
  }

  /** Rewriting row i of a verified log and keeping its hash: the chain stays intact exactly when the
      row's text is unchanged or the two inputs collide, and otherwise breaks exactly at i. */
  lemma TamperedRowBreaks(sha: Sha, rows: seq<LogRow>, i: nat, forged: LogRow)
    requires Intact(sha, rows) && i < |rows| && forged.hash == rows[i].hash
    ensures var tampered := rows[i := forged];
            var clash := Clash(RowInput(rows, i), RowInput(tampered, i));
            && (Intact(sha, tampered) <==> SameText(forged, rows[i]) || IsCollision(sha, clash))
            && (BreaksAt(sha, tampered, i) <==> !SameText(forged, rows[i]) && !IsCollision(sha, clash))
    ensures WellFormed(rows[i]) && WellFormed(forged) ==> (SameText(forged, rows[i]) <==> SameContent(forged, rows[i]))
  {
    hide LinkInput, GenesisPrevHash, SameText, SameContent, WellFormed;
    var tampered := rows[i := forged];
    assert Linked(sha, rows, i) && PrevOf(tampered, i) == PrevOf(rows, i);
    LinkInputSameIff(PrevOf(rows, i), rows[i], PrevOf(tampered, i), forged);
    TextFacts(forged, rows[i]);
    assert RowInput(rows, i) == RowInput(tampered, i) <==> SameText(forged, rows[i]);
    assert Linked(sha, tampered, i) <==> sha(RowInput(tampered, i)) == sha(RowInput(rows, i));
    forall j | 0 <= j < |rows| && j != i
      ensures Linked(sha, tampered, j)
    {
      assert Linked(sha, rows, j) && RowInput(tampered, j) == RowInput(rows, j);
    }
  }

  lemma TextFacts(a: LogRow, b: LogRow)
    ensures SameText(a, b) <==> SameText(b, a)
    ensures SameContent(a, b) ==> SameText(a, b)
    ensures WellFormed(a) && WellFormed(b) ==> (SameText(a, b) <==> SameContent(a, b))
  {
    if WellFormed(a) && WellFormed(b) && SameText(a, b) {
      SameTextSameContent(a, b);
    }
  }

  /** The row with the last byte of its basis moved to the front of its subject hash. */
  function Shifted(row: LogRow): LogRow
    requires |row.basis| > 0
  {
    var last := |row.basis| - 1;
    row.(basis := row.basis[..last], subjectHash := [row.basis[last]] + row.subjectHash)
  }

  /** Neither verifier notices a shifted boundary: in every verified log, any row with a basis can be
      rewritten so that both still accept the whole log, though its columns have changed. */
  lemma {:induction false} ShiftedRowIsUndetected(sha: Sha, rows: seq<LogRow>, i: nat)
    requires Intact(sha, rows) && i < |rows| && |rows[i].basis| > 0
    ensures var tampered := rows[i := Shifted(rows[i])];
            && Intact(sha, tampered) && !SameContent(tampered[i], rows[i])
            && ((forall j :: 0 <= j < |rows| ==> rows[j].prevHash == PrevOf(rows, j))
                ==> forall j :: 0 <= j < |rows| ==> tampered[j].prevHash == PrevOf(tampered, j))
  {
    hide LinkInput, GenesisPrevHash;
    var row := rows[i];
    assert row.basis == row.basis[..|row.basis| - 1] + [row.basis[|row.basis| - 1]];
    assert Tail(Shifted(row)) == Tail(row);
    TamperedRowBreaks(sha, rows, i, Shifted(row));
  }
}
