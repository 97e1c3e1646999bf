/**
 View change: collecting timeout reports into a view-change certificate that
 carries the highest certificate the reporters have seen.
 */
module ViewChange {
  import opened Prelude
  import opened Bytes
  import opened Certificates
  import opened Headers
  import opened ModArith

  datatype ViewChangeMessage = ViewChangeMessage(slot: u64, highestQc: QuorumCert, voterIndex: nat, signature: seq<byte>)

  datatype ViewChangeQc = ViewChangeQc(slot: u64, highestQc: QuorumCert, bitmap: Bitmap, voteCount: nat)

  const VIEW_CHANGE_TAG: seq<byte> := Ascii("view_change")

  function ViewChangePreimage(chainId: u64, slot: u64, qcHash: Digest): (m: seq<byte>)
    ensures |m| == 59
  {
    VIEW_CHANGE_TAG + Le(chainId, 8) + Le(slot, 8) + qcHash
  }

  lemma {:induction false} ViewChangePreimageInjective(chainId: u64, s1: u64, h1: Digest, s2: u64, h2: Digest)
    requires ViewChangePreimage(chainId, s1, h1) == ViewChangePreimage(chainId, s2, h2)
    ensures s1 == s2 && h1 == h2
  {
    var m1, m2 := ViewChangePreimage(chainId, s1, h1), ViewChangePreimage(chainId, s2, h2);
    assert m1[19..27] == Le(s1, 8) && m2[19..27] == Le(s2, 8);
    assert m1[27..] == h1 && m2[27..] == h2;
    Pow256Widths();
    LeInjective(s1, s2, 8);
  }

  /** The signature covers the slot and the digest of the reported certificate. */
  function VerifyViewChange(c: Committee, h: Hasher, m: ViewChangeMessage): bool
    requires m.voterIndex < c.Size()
  {
    c.verify(c.keys[m.voterIndex], ViewChangePreimage(c.chainId, m.slot, h(QcPreimage(m.highestQc))), m.signature)
  }

  /** The bitmap marks as many voters as a quorum has; the signatures are not looked at. */
  predicate MarksQuorum(c: Committee, qc: QuorumCert)
  {
    |qc.bitmap| >= QuorumFor(c.Size())
  }

  /** A report about this slot, validly signed by the member it names. */
  predicate Valid(c: Committee, h: Hasher, slot: u64, m: ViewChangeMessage)
  {
    m.slot == slot && m.voterIndex < c.Size() && VerifyViewChange(c, h, m)
  }

  function Reporters(c: Committee, h: Hasher, slot: u64, messages: seq<ViewChangeMessage>): set<nat>
  {
    set m | m in messages && Valid(c, h, slot, m) :: m.voterIndex
  }

  /** Message `k` is the first valid report by its sender: the one that counts. */
  ghost predicate Counted(c: Committee, h: Hasher, slot: u64, messages: seq<ViewChangeMessage>, k: nat)
  {
    && k < |messages|
    && Valid(c, h, slot, messages[k])
    && (forall j :: 0 <= j < k ==> !(Valid(c, h, slot, messages[j]) && messages[j].voterIndex == messages[k].voterIndex))
  }

  /** Report `k` counts, and its certificate marks a quorum. */
  ghost predicate Candidate(c: Committee, h: Hasher, slot: u64, messages: seq<ViewChangeMessage>, k: nat)
  {
    Counted(c, h, slot, messages, k) && MarksQuorum(c, messages[k].highestQc)
  }

  /** Report `k` is the first candidate that reports a certificate this new. */
  ghost predicate FirstAt(c: Committee, h: Hasher, slot: u64, messages: seq<ViewChangeMessage>, k: nat)
  {
    && Candidate(c, h, slot, messages, k)
    && forall j: nat :: j < k && Candidate(c, h, slot, messages, j) ==>
                          messages[j].highestQc.slot < messages[k].highestQc.slot
  }

  /**
   `qc` is the newest certificate among the counted reports that mark a quorum, the first
   reported if there are several, or the empty one if there is none past slot 0.
   */
  ghost predicate HighestReported(c: Committee, h: Hasher, slot: u64, messages: seq<ViewChangeMessage>, qc: QuorumCert)
  {
    && (forall k: nat :: Candidate(c, h, slot, messages, k) ==> messages[k].highestQc.slot <= qc.slot)
    && (|| qc == EmptyQc()
        || exists k: nat :: FirstAt(c, h, slot, messages, k) && messages[k].highestQc == qc && qc.slot > 0)
  }

  function EmptyQc(): QuorumCert
  {
    QuorumCert(0, seq(32, i => 0), {}, [])
  }

  lemma {:induction false} ReportersSnoc(c: Committee, h: Hasher, slot: u64, messages: seq<ViewChangeMessage>, n: nat)
    requires n < |messages|
    ensures var before := Reporters(c, h, slot, messages[..n]);
            Reporters(c, h, slot, messages[..n + 1]) ==
              if Valid(c, h, slot, messages[n]) then before + {messages[n].voterIndex} else before
  {
    assert messages[..n + 1] == messages[..n] + [messages[n]];
  }

  /** Counted messages of a prefix, and the one more the next message may add. */
  lemma {:induction false} CountedSnoc(c: Committee, h: Hasher, slot: u64, messages: seq<ViewChangeMessage>, n: nat, k: nat)
    requires n < |messages|
    ensures Counted(c, h, slot, messages[..n + 1], k) <==>
              || Counted(c, h, slot, messages[..n], k)
              || (k == n && Valid(c, h, slot, messages[n]) &&
                  messages[n].voterIndex !in Reporters(c, h, slot, messages[..n]))
  {
    var now, before := messages[..n + 1], messages[..n];
    if k < n {
      assert now[k] == before[k];
    } else if k == n {
      if messages[n].voterIndex in Reporters(c, h, slot, before) {
        var m :| m in before && Valid(c, h, slot, m) && m.voterIndex == messages[n].voterIndex;
        var j :| 0 <= j < n && before[j] == m;
        assert now[j] == m;
      } else {
        forall j | 0 <= j < n && Valid(c, h, slot, now[j])
          ensures now[j].voterIndex != messages[n].voterIndex
        {
          assert before[j] in before;
        }
      }
    }
  }

  /** The running totals after looking at `messages`. */
  ghost predicate Tallied(c: Committee, h: Hasher, slot: u64, messages: seq<ViewChangeMessage>,
                          bitmap: set<nat>, validCount: nat, highestQc: QuorumCert)
  {
    && bitmap == Reporters(c, h, slot, messages)
    && validCount == |bitmap|
    && HighestReported(c, h, slot, messages, highestQc)
  }

  /** Message `n` counts towards the totals reached so far. */
  predicate CountsNext(c: Committee, h: Hasher, slot: u64, bitmap: set<nat>, m: ViewChangeMessage)
  {
    Valid(c, h, slot, m) && m.voterIndex !in bitmap
  }

  predicate Improves(c: Committee, m: ViewChangeMessage, highestQc: QuorumCert)
  {
    m.highestQc.slot > highestQc.slot && MarksQuorum(c, m.highestQc)
  }

  lemma {:induction false} TallySnoc(c: Committee, h: Hasher, slot: u64, messages: seq<ViewChangeMessage>, n: nat,
                                     bitmap: set<nat>, validCount: nat, highestQc: QuorumCert)
    requires n < |messages|
    requires Tallied(c, h, slot, messages[..n], bitmap, validCount, highestQc)
    ensures var m := messages[n];
            if CountsNext(c, h, slot, bitmap, m)
            then Tallied(c, h, slot, messages[..n + 1], bitmap + {m.voterIndex}, validCount + 1,
                         if Improves(c, m, highestQc) then m.highestQc else highestQc)
            else Tallied(c, h, slot, messages[..n + 1], bitmap, validCount, highestQc)
  {
    var m := messages[n];
    ReportersSnoc(c, h, slot, messages, n);
    HighestSnoc(c, h, slot, messages, n, highestQc,
                if CountsNext(c, h, slot, bitmap, m) && Improves(c, m, highestQc) then m.highestQc else highestQc);
  }

  lemma {:induction false} HighestSnoc(c: Committee, h: Hasher, slot: u64, messages: seq<ViewChangeMessage>, n: nat,
                                       qc: QuorumCert, qc': QuorumCert)
    requires n < |messages|
    requires HighestReported(c, h, slot, messages[..n], qc)
    requires qc' == if CountsNext(c, h, slot, Reporters(c, h, slot, messages[..n]), messages[n]) &&
                       Improves(c, messages[n], qc)
                    then messages[n].highestQc else qc
    ensures HighestReported(c, h, slot, messages[..n + 1], qc')
  {
    var now, before := messages[..n + 1], messages[..n];
    forall k: nat | Candidate(c, h, slot, now, k)
      ensures now[k].highestQc.slot <= qc'.slot
    {
      CandidateSnoc(c, h, slot, messages, n, k);
    }
    if qc' != EmptyQc() {
      if qc' == qc {
        var k: nat :| FirstAt(c, h, slot, before, k) && before[k].highestQc == qc && qc.slot > 0;
        FirstAtKept(c, h, slot, messages, n, k);
      } else {
        FirstAtNow(c, h, slot, messages, n, qc);
      }
    }
  }

  /** Candidates of a prefix, and the one more the next message may add. */
  lemma {:induction false} CandidateSnoc(c: Committee, h: Hasher, slot: u64, messages: seq<ViewChangeMessage>, n: nat, k: nat)
    requires n < |messages|
    ensures Candidate(c, h, slot, messages[..n + 1], k) <==>
              || Candidate(c, h, slot, messages[..n], k)
              || (k == n && Valid(c, h, slot, messages[n]) && MarksQuorum(c, messages[n].highestQc) &&
                  messages[n].voterIndex !in Reporters(c, h, slot, messages[..n]))
  {
    CountedSnoc(c, h, slot, messages, n, k);
    if k < n {
      assert messages[..n + 1][k] == messages[..n][k];
    }
  }

  lemma {:induction false} FirstAtKept(c: Committee, h: Hasher, slot: u64, messages: seq<ViewChangeMessage>, n: nat, k: nat)
    requires n < |messages| && FirstAt(c, h, slot, messages[..n], k)
    ensures FirstAt(c, h, slot, messages[..n + 1], k) && messages[..n + 1][k] == messages[..n][k]
  {
    var now := messages[..n + 1];
    CandidateSnoc(c, h, slot, messages, n, k);
    forall j: nat | j < k && Candidate(c, h, slot, now, j)
      ensures now[j].highestQc.slot < now[k].highestQc.slot
    {
      CandidateSnoc(c, h, slot, messages, n, j);
    }
  }

  lemma {:induction false} FirstAtNow(c: Committee, h: Hasher, slot: u64, messages: seq<ViewChangeMessage>, n: nat,
                                      qc: QuorumCert)
    requires n < |messages| && HighestReported(c, h, slot, messages[..n], qc)
    requires CountsNext(c, h, slot, Reporters(c, h, slot, messages[..n]), messages[n]) && Improves(c, messages[n], qc)
    ensures FirstAt(c, h, slot, messages[..n + 1], n) && messages[..n + 1][n] == messages[n]
  {
    var now := messages[..n + 1];
    CandidateSnoc(c, h, slot, messages, n, n);
    forall j: nat | j < n && Candidate(c, h, slot, now, j)
      ensures now[j].highestQc.slot < now[n].highestQc.slot
    {
      CandidateSnoc(c, h, slot, messages, n, j);
    }
  }

  /**
   Forms a certificate exactly when a quorum of distinct members reported; it names them
   and carries the newest certificate they reported that marks a quorum.
   */
  method TryFormViewChangeQc(c: Committee, h: Hasher, slot: u64, messages: seq<ViewChangeMessage>)
    returns (r: Option<ViewChangeQc>)
    requires c.Size() <= 128
    ensures r.Some? <==> |Reporters(c, h, slot, messages)| >= QuorumFor(c.Size())
    ensures r.Some? ==>
              && r.value.slot == slot
              && Tallied(c, h, slot, messages, r.value.bitmap, r.value.voteCount, r.value.highestQc)
  {
    var bitmap: Bitmap := {};
    var validCount := 0;
    var highestQc := EmptyQc();
    for n := 0 to |messages|
      invariant Tallied(c, h, slot, messages[..n], bitmap, validCount, highestQc)
    {
      var m := messages[n];
      TallySnoc(c, h, slot, messages, n, bitmap, validCount, highestQc);
      if m.slot != slot || m.voterIndex >= c.Size() || m.voterIndex in bitmap {
        continue;
      }
      if VerifyViewChange(c, h, m) {
        bitmap := bitmap + {m.voterIndex};
        validCount := validCount + 1;
        if m.highestQc.slot > highestQc.slot && MarksQuorum(c, m.highestQc) {
          highestQc := m.highestQc;
        }
      }
    }
    assert messages[..|messages|] == messages;
    if validCount >= QuorumFor(c.Size()) {
      r := Some(ViewChangeQc(slot, highestQc, bitmap, validCount));
    } else {
      r := None;
    }
  }

  // ---------- Progress survives a view change ----------

  /** What one member put its signature under: the certificate it reported for a height. */
  datatype Report = Report(slot: u64, qc: QuorumCert)

  /** What each honest member reported, over all heights. */
  type Reports = map<nat, set<Report>>

  function ReportPreimage(c: Committee, h: Hasher, slot: u64, qc: QuorumCert): seq<byte>
  {
    ViewChangePreimage(c.chainId, slot, h(QcPreimage(qc)))
  }

  /** A message verifies under an honest member's key only if the member signed exactly those bytes. */
  ghost predicate Genuine(c: Committee, h: Hasher, slot: u64, messages: seq<ViewChangeMessage>, reports: Reports)
  {
    forall m :: m in messages && Valid(c, h, slot, m) && m.voterIndex in reports ==>
      exists r :: r in reports[m.voterIndex]
                  && ReportPreimage(c, h, m.slot, m.highestQc) == ReportPreimage(c, h, r.slot, r.qc)
  }

  /** The certificate encodings that are hashed when the members report and when the reports are checked. */
  ghost function DigestInputs(messages: seq<ViewChangeMessage>, reports: Reports): set<seq<byte>>
  {
    (set m | m in messages :: QcPreimage(m.highestQc)) + (set i, r | i in reports && r in reports[i] :: QcPreimage(r.qc))
  }

  lemma {:induction false} FirstReport(c: Committee, h: Hasher, slot: u64, messages: seq<ViewChangeMessage>, k: nat)
    returns (first: nat)
    requires k < |messages| && Valid(c, h, slot, messages[k])
    ensures Counted(c, h, slot, messages, first) && messages[first].voterIndex == messages[k].voterIndex
    decreases k
  {
    first := k;
    if j :| 0 <= j < k && Valid(c, h, slot, messages[j]) && messages[j].voterIndex == messages[k].voterIndex {
      first := FirstReport(c, h, slot, messages, j);
    }
  }

  /** For this height the honest members of the quorum report only certificates of slot at least `s` that mark a quorum. */
  ghost predicate ReportAtLeast(c: Committee, slot: u64, reports: Reports, quorum: set<nat>, s: nat)
  {
    forall i, r :: i in quorum && i in reports && r in reports[i] && r.slot == slot ==>
                     r.qc.slot >= s && MarksQuorum(c, r.qc)
  }

  lemma {:induction false} ReportedSlot(c: Committee, slot: u64, reports: Reports, quorum: set<nat>, s: nat, i: nat, r: Report)
    requires ReportAtLeast(c, slot, reports, quorum, s)
    requires i in quorum && i in reports && r in reports[i] && r.slot == slot
    ensures r.qc.slot >= s && MarksQuorum(c, r.qc)
  {
  }

  /**
   If the honest members of some quorum report only certificates of slot at least `s`
   that mark a quorum, then every view-change certificate that can be formed carries a
   certificate of slot at least `s`, whatever the other members report.
   */
  lemma {:induction false} ViewChangeKeepsProgress(c: Committee, h: Hasher, slot: u64, messages: seq<ViewChangeMessage>,
                                                   reports: Reports, quorum: set<nat>, s: nat, qc: QuorumCert)
    requires reports.Keys <= Range(c.Size()) && 3 * |Range(c.Size()) - reports.Keys| < c.Size()
    requires Genuine(c, h, slot, messages, reports) && InjectiveOn(h, DigestInputs(messages, reports))
    requires quorum <= Range(c.Size()) && |quorum| >= QuorumFor(c.Size())
    requires ReportAtLeast(c, slot, reports, quorum, s)
    requires |Reporters(c, h, slot, messages)| >= QuorumFor(c.Size())
    requires HighestReported(c, h, slot, messages, qc)
    ensures qc.slot >= s
  {
    var n := c.Size();
    var i := QuorumsShareHonest(n, Range(n) - reports.Keys, quorum, Reporters(c, h, slot, messages));
    var k := ReporterCounted(c, h, slot, messages, i);
    var r := SignedReport(c, h, slot, messages, reports, k);
    ReportedSlot(c, slot, reports, quorum, s, i, r);
    CarriesAtLeast(c, h, slot, messages, qc, k);
  }

  lemma {:induction false} CarriesAtLeast(c: Committee, h: Hasher, slot: u64, messages: seq<ViewChangeMessage>,
                                          qc: QuorumCert, k: nat)
    requires HighestReported(c, h, slot, messages, qc) && Counted(c, h, slot, messages, k)
    requires MarksQuorum(c, messages[k].highestQc)
    ensures qc.slot >= messages[k].highestQc.slot
  {
  }

  lemma {:induction false} ReporterCounted(c: Committee, h: Hasher, slot: u64, messages: seq<ViewChangeMessage>, i: nat)
    returns (k: nat)
    requires i in Reporters(c, h, slot, messages)
    ensures Counted(c, h, slot, messages, k) && messages[k].voterIndex == i
  {
    var m :| m in messages && Valid(c, h, slot, m) && m.voterIndex == i;
    var j: nat :| j < |messages| && messages[j] == m;
    k := FirstReport(c, h, slot, messages, j);
  }

  /** A counted report under an honest key is one that member made for this height. */
  lemma {:induction false} SignedReport(c: Committee, h: Hasher, slot: u64, messages: seq<ViewChangeMessage>,
                                        reports: Reports, k: nat) returns (r: Report)
    requires Genuine(c, h, slot, messages, reports) && InjectiveOn(h, DigestInputs(messages, reports))
    requires Counted(c, h, slot, messages, k) && messages[k].voterIndex in reports
    ensures r in reports[messages[k].voterIndex] && r.slot == slot
    ensures r.qc.slot == messages[k].highestQc.slot && r.qc.bitmap == messages[k].highestQc.bitmap
  {
    var m := messages[k];
    assert m in messages;
    r :| r in reports[m.voterIndex] && ReportPreimage(c, h, m.slot, m.highestQc) == ReportPreimage(c, h, r.slot, r.qc);
    ViewChangePreimageInjective(c.chainId, m.slot, h(QcPreimage(m.highestQc)), r.slot, h(QcPreimage(r.qc)));
    assert QcPreimage(m.highestQc) in DigestInputs(messages, reports);
    assert QcPreimage(r.qc) in DigestInputs(messages, reports);
    QcPreimageInjective(m.highestQc, r.qc);
  }

  // ---------- What the carried certificate is worth ----------

  /** The reports determine the certificate that is carried. */
  lemma {:induction false} CarriedIsUnique(c: Committee, h: Hasher, slot: u64, messages: seq<ViewChangeMessage>,
                                           a: QuorumCert, b: QuorumCert)
    requires HighestReported(c, h, slot, messages, a) && HighestReported(c, h, slot, messages, b)
    ensures a == b
  {
    if a != EmptyQc() && b != EmptyQc() {
      var j: nat :| FirstAt(c, h, slot, messages, j) && messages[j].highestQc == a;
      var k: nat :| FirstAt(c, h, slot, messages, k) && messages[k].highestQc == b;
      assert j == k;
    }
  }

  /** No candidate reports a newer certificate, and none before `k` one as new. */
  ghost predicate Leads(c: Committee, h: Hasher, slot: u64, messages: seq<ViewChangeMessage>, k: nat)
  {
    && FirstAt(c, h, slot, messages, k) && messages[k].highestQc.slot > 0
    && forall j: nat :: Candidate(c, h, slot, messages, j) ==>
                          messages[j].highestQc.slot <= messages[k].highestQc.slot
  }

  /**
   The carried certificate passes the certificate check exactly when the leading report's
   does: the other reports, honest or not, have no say in it.
   */
  lemma {:induction false} CarriedPassesIff(c: Committee, h: Hasher, slot: u64, messages: seq<ViewChangeMessage>,
                                            qc: QuorumCert)
    requires HighestReported(c, h, slot, messages, qc)
    ensures Acceptable(c, qc) <==>
            forall k: nat :: Leads(c, h, slot, messages, k) ==> Acceptable(c, messages[k].highestQc)
  {
    if qc == EmptyQc() {
      assert IsSentinel(qc);
    } else {
      var k: nat :| FirstAt(c, h, slot, messages, k) && messages[k].highestQc == qc && qc.slot > 0;
      assert Leads(c, h, slot, messages, k);
      forall j: nat | Leads(c, h, slot, messages, j)
        ensures j == k
      {
      }
    }
  }

  /** One report with a newer slot than all others decides what is carried, though its signatures back nothing. */
  lemma {:induction false} UnbackedReportCarried(c: Committee, h: Hasher, slot: u64, messages: seq<ViewChangeMessage>,
                                                 k: nat, qc: QuorumCert)
    requires HighestReported(c, h, slot, messages, qc) && Candidate(c, h, slot, messages, k)
    requires messages[k].highestQc.slot > 0 && !Acceptable(c, messages[k].highestQc)
    requires forall j: nat :: Candidate(c, h, slot, messages, j) && j != k ==>
                                messages[j].highestQc.slot < messages[k].highestQc.slot
    ensures qc == messages[k].highestQc && !Acceptable(c, qc)
  {
    assert Leads(c, h, slot, messages, k);
    CarriedPassesIff(c, h, slot, messages, qc);
  }

  // ---------- Fallback leader ----------

  /** The leader of the recovery view: `(height + view) mod 2^64 mod n`. */
  function FallbackLeader(height: u64, view: u64, n: nat): (i: nat)
    ensures n > 0 ==> i < n
  {
    if n == 0 then 0 else ((height + view) % U64) % n
  }

  /** Member `i` leads exactly one of the `n` views from `view` on. */
  ghost predicate LeadsOnce(height: u64, view: u64, n: nat, i: nat)
  {
    exists v: u64 :: LeadsOnlyAt(height, view, n, i, v)
  }

  ghost predicate LeadsOnlyAt(height: u64, view: u64, n: nat, i: nat, v: u64)
  {
    && view <= v < view + n && FallbackLeader(height, v, n) == i
    && forall w: u64 :: view <= w < view + n && FallbackLeader(height, w, n) == i ==> w == v
  }

  /** The leader numbers of `n` consecutive views do not wrap, or wrap without a jump. */
  predicate Smooth(height: u64, view: u64, n: nat)
    requires n > 0
  {
    (height + view) % U64 + n <= U64 || U64 % n == 0
  }

  lemma {:induction false} WrapOnce(x: nat, d: nat)
    requires d <= U64
    ensures (x + d) % U64 == if x % U64 + d < U64 then x % U64 + d else x % U64 + d - U64
  {
  }

  /** Going on from 2^64 as from zero makes no difference to a divisor of 2^64. */
  lemma {:induction false} DivisorWraps(x: nat, n: nat)
    requires n > 0 && U64 % n == 0 && x >= U64
    ensures (x - U64) % n == x % n
  {
    var q := U64 / n;
    assert U64 == q * n;
    SameResidue(x, x - U64, q, n);
  }

  lemma {:induction false} LeaderAt(height: u64, view: u64, n: nat, w: u64)
    requires n > 0 && view <= w < view + n <= U64 && Smooth(height, view, n)
    ensures var at := (height + view) % U64 % n + (w - view);
            FallbackLeader(height, w, n) == if at < n then at else at - n
  {
    var s, d := (height + view) % U64, w - view;
    WrapOnce(height + view, d);
    assert height + view + d == height + w;
    if s + d >= U64 {
      DivisorWraps(s + d, n);
    }
    ModShift(s, d, n);
  }

  lemma {:induction false} EveryMemberLeadsOnce(height: u64, view: u64, n: nat, i: nat)
    requires i < n && view + n <= U64 && Smooth(height, view, n)
    ensures LeadsOnce(height, view, n, i)
  {
    var base := (height + view) % U64 % n;
    var v := if base <= i then view + i - base else view + n - base + i;
    LeaderAt(height, view, n, v);
    forall w: u64 | view <= w < view + n && FallbackLeader(height, w, n) == i
      ensures w == v
    {
      LeaderAt(height, view, n, w);
    }
    assert LeadsOnlyAt(height, view, n, i, v);
  }

  lemma {:induction false} ResidueBefore(n: nat, f: nat)
    requires n > 0 && f <= U64 % n
    ensures (U64 - f) % n == U64 % n - f && (U64 % n - f) % n == U64 % n - f
  {
    var q, r := U64 / n, U64 % n;
    assert U64 == q * n + r;
    DivModUnique(U64 - f, n, q, r - f);
    DivModUnique(r - f, n, 0, r - f);
  }

  /** Where the sum wraps with a jump, some member leads two of the views. */
  lemma {:induction false} SomeoneLeadsTwice(height: u64, view: u64, n: nat) returns (i: nat, v: u64, w: u64)
    requires n > 0 && view + n <= U64 && !Smooth(height, view, n)
    ensures i < n && view <= v < w < view + n && FallbackLeader(height, v, n) == i == FallbackLeader(height, w, n)
  {
    var r, left := U64 % n, U64 - (height + view) % U64;
    var f := if r <= left then r else left;
    i, v, w := r - f, view + left - f, view + left + (r - f);
    WrapOnce(height + view, left - f);
    WrapOnce(height + view, left + (r - f));
    assert height + v == height + view + (left - f) && height + w == height + view + (left + (r - f));
    ResidueBefore(n, f);
  }

  /**
   Rotation: among `n` consecutive views of one height each of the `n` members leads exactly
   one, exactly when the sum of height and view does not wrap in between or the committee
   size divides 2^64.
   */
  lemma {:induction false} RotationIff(height: u64, view: u64, n: nat)
    requires n > 0 && view + n <= U64
    ensures (forall i: nat :: i < n ==> LeadsOnce(height, view, n, i)) <==> Smooth(height, view, n)
  {
    if Smooth(height, view, n) {
      forall i: nat | i < n
        ensures LeadsOnce(height, view, n, i)
      {
        EveryMemberLeadsOnce(height, view, n, i);
      }
    } else {
      var i, v, w := SomeoneLeadsTwice(height, view, n);
      assert !LeadsOnce(height, view, n, i);
    }
  }
}
