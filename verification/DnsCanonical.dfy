/** Names in the canonical form that signatures cover. */
module DnsCanonical {
  import opened Bytes
  import opened DnsWire

  // ---------------------------------------------------------------- canonical names

  function LowerByte(c: byte): byte { if 65 <= c <= 90 then c + 32 else c }

  function Lower(s: bytes): (r: bytes)
    ensures |r| == |s| && forall i :: 0 <= i < |s| ==> r[i] == LowerByte(s[i])
  {
    seq(|s|, i requires 0 <= i < |s| => LowerByte(s[i]))
  }

  function LowerLabels(ls: seq<bytes>): (r: seq<bytes>)
    ensures |r| == |ls| && forall i :: 0 <= i < |ls| ==> r[i] == Lower(ls[i])
  {
    seq(|ls|, i requires 0 <= i < |ls| => Lower(ls[i]))
  }

  /** Lower case, and at most 255 characters. */
  function Canonical(name: bytes): bytes { Lower(if |name| <= 255 then name else name[..255]) }

  lemma {:induction false} FirstDotIs(name: bytes, n: nat)
    requires n <= |name| && (n < |name| ==> name[n] == DOT)
    requires forall k :: 0 <= k < n ==> name[k] != DOT
    ensures FirstDot(name) == n
  {
    hide FirstDot;
  }

  lemma FirstDotLower(name: bytes)
    ensures FirstDot(Lower(name)) == FirstDot(name)
  {
    FirstDotIs(Lower(name), FirstDot(name));
  }

  lemma LowerSplit(name: bytes, n: nat)
    requires n < |name|
    ensures Lower(name)[..n] == Lower(name[..n]) && Lower(name)[n + 1..] == Lower(name[n + 1..])
  {
  }

  lemma LowerLabelsStep(l: bytes, ls: seq<bytes>)
    ensures LowerLabels([l] + ls) == [Lower(l)] + LowerLabels(ls)
  {
  }

  lemma {:induction false} LabelsOfLower(name: bytes)
    ensures Labels(Lower(name)) == LowerLabels(Labels(name))
    decreases |name|
  {
    hide FirstDot, Lower;
    FirstDotLower(name);
    var n := FirstDot(name);
    if n == 0 {
    } else if n == |name| {
      assert LowerLabels([name]) == [Lower(name)];
    } else {
      LowerSplit(name, n);
      LabelsOfLower(name[n + 1..]);
      LowerLabelsStep(name[..n], Labels(name[n + 1..]));
    }
  }

  lemma FirstDotPrefix(name: bytes, k: nat)
    requires k <= |name|
    ensures FirstDot(name[..k]) == if FirstDot(name) <= k then FirstDot(name) else k
  {
    var n := if FirstDot(name) <= k then FirstDot(name) else k;
    FirstDotIs(name[..k], n);
  }

  lemma FitsStep(l: bytes, ls: seq<bytes>)
    ensures LabelsFit([l] + ls) <==> |l| <= 63 && LabelsFit(ls)
  {
    assert ([l] + ls)[0] == l && forall k <- ls :: k in [l] + ls;
  }

  lemma UsedStep(name: bytes, n: nat)
    requires n == FirstDot(name) && 0 < n < |name|
    ensures Labels(name) == [name[..n]] + Labels(name[n + 1..])
    ensures Used(name) <= n <==> Labels(name[n + 1..]) == []
    ensures Labels(name[n + 1..]) == [] ==> Used(name) == n
    ensures Labels(name[n + 1..]) != [] ==> Used(name) == n + 1 + Used(name[n + 1..])
  {
  }

  /** The labels of a shortened name fit if those of the name do, and are the same if they end before the cut. */
  ghost predicate CutsWell(name: bytes, k: nat)
    requires k <= |name|
  {
    && (LabelsFit(Labels(name)) ==> LabelsFit(Labels(name[..k])))
    && (Used(name) <= k ==> Labels(name[..k]) == Labels(name))
  }

  lemma CutsWellStep(name: bytes, k: nat, n: nat)
    requires n == FirstDot(name) && 0 < n < k <= |name| && CutsWell(name[n + 1..], k - n - 1)
    ensures CutsWell(name, k)
  {
    hide FirstDot, LabelsFit, Labels, Used;
    var rest, short := name[n + 1..], name[..k];
    FirstDotPrefix(name, k);
    CutSplit(name, k, n);
    UsedStep(name, n);
    UsedStep(short, n);
    FitsStep(name[..n], Labels(rest));
    FitsStep(name[..n], Labels(rest[..k - n - 1]));
    if Labels(rest) == [] {
      LabelsOfPrefixNone(rest, k - n - 1);
    }
  }

  lemma CutSplit(name: bytes, k: nat, n: nat)
    requires n < k <= |name|
    ensures name[..k][..n] == name[..n] && name[..k][n + 1..] == name[n + 1..][..k - n - 1]
  {
  }

  lemma {:induction false} LabelsOfPrefix(name: bytes, k: nat)
    requires k <= |name|
    ensures CutsWell(name, k)
    decreases |name|
  {
    hide CutsWell, FirstDot;
    var n := FirstDot(name);
    if n == 0 {
      CutsWellNone(name, k);
    } else if n < k {
      LabelsOfPrefix(name[n + 1..], k - n - 1);
      CutsWellStep(name, k, n);
    } else {
      CutsWellOne(name, k);
    }
  }

  lemma CutsWellNone(name: bytes, k: nat)
    requires k <= |name| && FirstDot(name) == 0
    ensures CutsWell(name, k)
  {
    FirstDotPrefix(name, k);
  }

  lemma CutsWellOne(name: bytes, k: nat)
    requires k <= |name| && k <= FirstDot(name) && FirstDot(name) > 0
    ensures CutsWell(name, k)
  {
    hide FirstDot, Labels, Used, LabelsFit;
    PrefixIsOneLabel(name, k);
  }

  lemma LabelsOfPrefixNone(name: bytes, k: nat)
    requires k <= |name| && Labels(name) == []
    ensures Labels(name[..k]) == []
  {
    FirstDotPrefix(name, k);
  }

  lemma PrefixIsOneLabel(name: bytes, k: nat)
    requires k <= |name| && k <= FirstDot(name) && FirstDot(name) > 0
    ensures Labels(name[..k]) == if k == 0 then [] else [name[..k]]
    ensures LabelsFit(Labels(name)) ==> k <= 63 && LabelsFit(Labels(name[..k]))
    ensures Used(name) <= k ==> Labels(name) == [name[..k]]
  {
    FirstDotPrefix(name, k);
    assert Labels(name)[0] == name[..FirstDot(name)];
    assert Labels(name)[0] in Labels(name);
  }

  /** Labels cut off after `k` characters of the dotted name they make up. */
  function CutLabels(ls: seq<bytes>, k: nat): seq<bytes>
  {
    if ls == [] || k == 0 then []
    else if k <= |ls[0]| then [ls[0][..k]]
    else [ls[0]] + CutLabels(ls[1..], k - |ls[0]| - 1)
  }

  lemma CutLabelsStep(l: bytes, ls: seq<bytes>, k: nat)
    ensures CutLabels([l] + ls, k) ==
            if k == 0 then [] else if k <= |l| then [l[..k]] else [l] + CutLabels(ls, k - |l| - 1)
  {
    assert ([l] + ls)[1..] == ls;
  }

  /** Cutting a name cuts its labels at the same place and does nothing else to them. */
  lemma {:induction false} LabelsOfCut(name: bytes, k: nat)
    requires k <= |name|
    ensures Labels(name[..k]) == CutLabels(Labels(name), k)
    decreases |name|
  {
    hide FirstDot, Labels, CutLabels, Used, LabelsFit;
    var n := FirstDot(name);
    if n == 0 {
      NoLabels(name);
      LabelsOfPrefixNone(name, k);
      NothingToCut(k);
    } else if k <= n {
      PrefixIsOneLabel(name, k);
      FirstCut(name, k);
    } else {
      var cut := name[..k];
      FirstDotPrefix(name, k);
      CutSplit(name, k, n);
      UsedStep(name, n);
      UsedStep(cut, n);
      CutLabelsStep(name[..n], Labels(name[n + 1..]), k);
      LabelsOfCut(name[n + 1..], k - n - 1);
    }
  }

  lemma NoLabels(name: bytes)
    requires FirstDot(name) == 0
    ensures Labels(name) == []
  {
  }

  lemma FirstCut(name: bytes, k: nat)
    requires k <= FirstDot(name) && FirstDot(name) > 0
    ensures CutLabels(Labels(name), k) == if k == 0 then [] else [name[..k]]
  {
    assert Labels(name) != [] && Labels(name)[0] == name[..FirstDot(name)];
    hide Labels, FirstDot;
    assert name[..FirstDot(name)][..k] == name[..k];
  }

  lemma NothingToCut(k: nat)
    ensures CutLabels([], k) == []
  {
  }

  /** Where label `j` ends in a name. */
  function LabelEnd(ls: seq<bytes>, j: nat): nat
    requires j < |ls|
  {
    if j == 0 then |ls[0]| else |ls[0]| + 1 + LabelEnd(ls[1..], j - 1)
  }

  /** Labels that end before the cut stay, and none becomes longer. */
  lemma {:induction false} LabelsBeforeCut(ls: seq<bytes>, k: nat)
    requires forall l <- ls :: |l| >= 1
    ensures |CutLabels(ls, k)| <= |ls|
    ensures forall j :: 0 <= j < |CutLabels(ls, k)| ==> CutLabels(ls, k)[j] <= ls[j]
    ensures forall j :: 0 <= j < |ls| && LabelEnd(ls, j) <= k ==> j < |CutLabels(ls, k)| && CutLabels(ls, k)[j] == ls[j]
  {
    if ls != [] && k > |ls[0]| {
      LabelsBeforeCut(ls[1..], k - |ls[0]| - 1);
    } else if ls != [] {
      assert |ls[0]| >= 1;
      assert forall j :: 0 < j < |ls| ==> LabelEnd(ls, j) > |ls[0]|;
    }
  }

  /** The name hmac-sha256. */
  function Algorithm(): bytes { [104, 109, 97, 99, 45, 115, 104, 97, 50, 53, 54] }

  lemma AlgorithmIsPlain()
    ensures |Algorithm()| == 11 && Lower(Algorithm()) == Algorithm()
    ensures forall k :: 0 <= k < 11 ==> Algorithm()[k] != DOT
  {
  }

  lemma AlgorithmLabels()
    ensures Labels(Algorithm()) == [Algorithm()] && Canonical(Algorithm()) == Algorithm()
  {
    AlgorithmIsPlain();
    hide Algorithm, Lower, FirstDot;
    FirstDotIs(Algorithm(), 11);
  }
}
