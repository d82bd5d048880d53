/**
 * Edit statistics of one barcode: the number of alleles introduced by its
 * distinct edits, and the number of distinct edits that occupy one site
 * (indels) or several sites (multi-site edits).
 */
module EditCounts {
  import opened Text
  import opened Wrappers
  import opened Substitutions

  /** Number of `&`-separated alleles in a site token. */
  function AlleleCount(token: string): (n: nat)
    ensures n >= 1
  {
    |Split(token, '&')|
  }

  /** The distinct edited tokens of a barcode: `set(b.split('_'))` without `NONE`. */
  function DistinctEdits(barcode: string): set<string>
  {
    (set t | t in Split(barcode, '_')) - {NoEdit}
  }

  /** Sum of the allele counts of a set of tokens. */
  ghost function AlleleSum(edits: set<string>): nat
  {
    if edits == {} then 0
    else
      var t :| t in edits;
      AlleleCount(t) + AlleleSum(edits - {t})
  }

  /** The sum over a set does not depend on which element is taken first. */
  lemma AlleleSumRemove(edits: set<string>, y: string)
    requires y in edits
    ensures AlleleSum(edits) == AlleleCount(y) + AlleleSum(edits - {y})
  {
    var t :| t in edits && AlleleSum(edits) == AlleleCount(t) + AlleleSum(edits - {t});
    if t != y {
      AlleleSumRemove(edits - {t}, y);
      AlleleSumRemove(edits - {y}, t);
      assert edits - {t} - {y} == edits - {y} - {t};
    }
  }

  /** Every token contributes at least one allele. */
  lemma AlleleSumAtLeastSize(edits: set<string>)
    ensures AlleleSum(edits) >= |edits|
  {
    if edits != {} {
      var t :| t in edits;
      AlleleSumRemove(edits, t);
      AlleleSumAtLeastSize(edits - {t});
    }
  }

  /** Modelled on `countEdits`: over the distinct non-`NONE` tokens, taken
      in any order, a multi-allelic token adds its split alleles and any
      other token adds itself; the result is how many were added. */
  method CountEdits(barcodeString: string) returns (n: nat)
    ensures n == AlleleSum(DistinctEdits(barcodeString))
  {
    var editsBySite := Split(barcodeString, '_');
    var editsSet := set t | t in editsBySite;
    editsSet := editsSet - {NoEdit};
    var allEdits: seq<string> := [];
    var remaining := editsSet;
    while remaining != {}
      invariant remaining <= editsSet
      invariant |allEdits| + AlleleSum(remaining) == AlleleSum(editsSet)
      decreases remaining
    {
      var x :| x in remaining;
      AlleleSumRemove(remaining, x);
      if IsMultiAllelic(x) {
        allEdits := allEdits + Split(x, '&');
      } else {
        SplitWithoutSep(x, '&');
        allEdits := allEdits + [x];
      }
      remaining := remaining - {x};
    }
    n := |allEdits|;
  }

  /** The sites of `s` other than `token`, in order. */
  function WithoutToken(s: seq<string>, token: string): (r: seq<string>)
    ensures token !in r
    ensures forall t :: t in r <==> t in s && t != token
  {
    if s == [] then []
    else if s[0] == token then WithoutToken(s[1..], token)
    else [s[0]] + WithoutToken(s[1..], token)
  }

  lemma {:induction false} WithoutTokenRemoveFirst(s: seq<string>, token: string)
    requires token in s
    ensures WithoutToken(RemoveFirst(s, token), token) == WithoutToken(s, token)
    decreases |s|
  {
    if s[0] != token {
      WithoutTokenRemoveFirst(s[1..], token);
      assert ([s[0]] + RemoveFirst(s[1..], token))[1..] == RemoveFirst(s[1..], token);
    }
  }

  lemma {:induction false} WithoutAbsentToken(s: seq<string>, token: string)
    requires token !in s
    ensures WithoutToken(s, token) == s
    decreases |s|
  {
    if s != [] {
      WithoutAbsentToken(s[1..], token);
      assert [s[0]] + s[1..] == s;
    }
  }

  /** The edited sites of a barcode, `NONE` sites dropped. */
  function EditSites(barcode: string): seq<string>
  {
    WithoutToken(Split(barcode, '_'), NoEdit)
  }

  /** The tokens that occur exactly once in `sites`. */
  function OnceIn(sites: seq<string>): set<string>
  {
    set t | t in sites && multiset(sites)[t] == 1
  }

  /** The tokens that occur more than once in `sites`. */
  function RepeatedIn(sites: seq<string>): set<string>
  {
    set t | t in sites && multiset(sites)[t] > 1
  }

  /** Distinct edits found at exactly one site. */
  function IndelEdits(barcode: string): set<string>
  {
    OnceIn(EditSites(barcode))
  }

  /** Distinct edits found at more than one site. */
  function MultisiteEdits(barcode: string): set<string>
  {
    RepeatedIn(EditSites(barcode))
  }

  /** `while 'NONE' in siteEdits: siteEdits.remove('NONE')`. */
  method RemoveUneditedSites(sites: seq<string>) returns (siteEdits: seq<string>)
    ensures siteEdits == WithoutToken(sites, NoEdit)
    ensures NoEdit !in siteEdits
  {
    siteEdits := sites;
    while NoEdit in siteEdits
      invariant WithoutToken(siteEdits, NoEdit) == WithoutToken(sites, NoEdit)
      decreases |siteEdits|
    {
      WithoutTokenRemoveFirst(siteEdits, NoEdit);
      siteEdits := RemoveFirst(siteEdits, NoEdit);
    }
    WithoutAbsentToken(siteEdits, NoEdit);
  }

  /** The loop over the `Counter`: how many keys span exactly one site and
      how many span more than one. */
  method CountByMultiplicity(counterDict: multiset<string>) returns (numIndels: nat, numMultiSites: nat)
    ensures numIndels == |set t | t in counterDict && counterDict[t] == 1|
    ensures numMultiSites == |set t | t in counterDict && counterDict[t] > 1|
  {
    var keys := set t | t in counterDict;
    var indels: seq<string> := [];
    var multisiteEdits: seq<string> := [];
    ghost var indelSet: set<string> := {};
    ghost var multisiteSet: set<string> := {};
    var todo := keys;
    while todo != {}
      invariant todo <= keys
      invariant forall t :: t in indelSet <==> t in keys && t !in todo && counterDict[t] == 1
      invariant forall t :: t in multisiteSet <==> t in keys && t !in todo && counterDict[t] > 1
      invariant |indels| == |indelSet| && |multisiteEdits| == |multisiteSet|
      decreases todo
    {
      var key :| key in todo;
      if counterDict[key] > 1 {
        multisiteEdits := multisiteEdits + [key];
        multisiteSet := multisiteSet + {key};
      } else if counterDict[key] == 1 {
        indels := indels + [key];
        indelSet := indelSet + {key};
      }
      todo := todo - {key};
    }
    assert indelSet == set t | t in counterDict && counterDict[t] == 1;
    assert multisiteSet == set t | t in counterDict && counterDict[t] > 1;
    numIndels, numMultiSites := |indels|, |multisiteEdits|;
  }

  /** Modelled on `countEditsbyType`: strip the `NONE` sites one at a time,
      count each remaining token's sites, and report the number of tokens of
      the requested kind; any other kind gives no value. */
  method CountEditsByType(barcode: string, editType: string) returns (r: Option<nat>)
    ensures editType == "indel" ==> r == Some(|IndelEdits(barcode)|)
    ensures editType == "multisite" ==> r == Some(|MultisiteEdits(barcode)|)
    ensures editType != "indel" && editType != "multisite" ==> r == None
  {
    var siteEdits := RemoveUneditedSites(Split(barcode, '_'));
    var counterDict := multiset(siteEdits);
    var numIndels, numMultiSites := CountByMultiplicity(counterDict);
    assert (set t | t in counterDict && counterDict[t] == 1) == IndelEdits(barcode);
    assert (set t | t in counterDict && counterDict[t] > 1) == MultisiteEdits(barcode);
    if editType == "indel" {
      r := Some(numIndels);
    } else if editType == "multisite" {
      r := Some(numMultiSites);
    } else {
      r := None;
    }
  }

  /** Every distinct edit is either an indel or a multi-site edit, never both. */
  lemma EditKindsPartition(barcode: string)
    ensures IndelEdits(barcode) !! MultisiteEdits(barcode)
    ensures IndelEdits(barcode) + MultisiteEdits(barcode) == DistinctEdits(barcode)
  {
    var sites := EditSites(barcode);
    forall t | t in DistinctEdits(barcode) ensures t in IndelEdits(barcode) + MultisiteEdits(barcode) {
      assert t in sites;
      assert multiset(sites)[t] >= 1;
    }
  }

  /** The allele total is at least the number of indels plus multi-site edits. */
  lemma CountEditsBound(barcode: string)
    ensures AlleleSum(DistinctEdits(barcode)) >= |IndelEdits(barcode)| + |MultisiteEdits(barcode)|
  {
    EditKindsPartition(barcode);
    AlleleSumAtLeastSize(DistinctEdits(barcode));
  }

  /** An unedited barcode has no edits of any kind. */
  lemma UneditedCountsZero(barcode: string)
    requires forall i :: 0 <= i < |Split(barcode, '_')| ==> Split(barcode, '_')[i] == NoEdit
    ensures DistinctEdits(barcode) == {}
    ensures AlleleSum(DistinctEdits(barcode)) == 0
    ensures IndelEdits(barcode) == {} && MultisiteEdits(barcode) == {}
  {
    assert DistinctEdits(barcode) == {};
    EditKindsPartition(barcode);
  }

  /** Adding another site that repeats a token already present does not
      change the distinct edits, hence not the allele total. */
  lemma RepeatedTokenCountsOnce(barcode: string, token: string)
    requires token in Split(barcode, '_')
    ensures DistinctEdits(barcode + "_" + token) == DistinctEdits(barcode)
    ensures AlleleSum(DistinctEdits(barcode + "_" + token)) == AlleleSum(DistinctEdits(barcode))
  {
    SplitPieces(barcode, '_');
    var i :| 0 <= i < |Split(barcode, '_')| && Split(barcode, '_')[i] == token;
    assert '_' !in token;
    SplitAround(barcode, '_', token);
    SplitWithoutSep(token, '_');
    assert Split(barcode + "_" + token, '_') == Split(barcode, '_') + [token];
  }

  lemma ExampleSplit()
    ensures Split("5D_5D_NONE", '_') == ["5D", "5D", NoEdit]
  {
    JoinThreeSites("5D", "5D", "NONE");
    assert "5D" + "_" + "5D" + "_" + "NONE" == "5D_5D_NONE";
    SplitJoin(["5D", "5D", "NONE"], '_');
  }

  lemma DropTrailingNoEdit(x: string)
    requires x != NoEdit
    ensures WithoutToken([x, x, NoEdit], NoEdit) == [x, x]
  {
    assert [NoEdit][1..] == [];
    assert WithoutToken([NoEdit], NoEdit) == [];
    assert [x, NoEdit][1..] == [NoEdit];
    assert WithoutToken([x, NoEdit], NoEdit) == [x];
    assert [x, x, NoEdit][1..] == [x, NoEdit];
  }

  lemma ExampleSites()
    ensures EditSites("5D_5D_NONE") == ["5D", "5D"]
  {
    ExampleSplit();
    DropTrailingNoEdit("5D");
  }

  lemma RepeatedTokenExample(x: string)
    ensures OnceIn([x, x]) == {} && RepeatedIn([x, x]) == {x}
  {
    assert multiset([x, x])[x] == 2;
    forall t | t in [x, x] ensures t == x { }
  }

  /** `5D` at two sites is one multi-site edit and no indel. */
  lemma EditTypeExample()
    ensures IndelEdits("5D_5D_NONE") == {}
    ensures MultisiteEdits("5D_5D_NONE") == {"5D"}
  {
    ExampleSites();
    RepeatedTokenExample("5D");
  }
}
