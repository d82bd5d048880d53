/**
 * Per-site clean-up of a barcode: a barcode is a `_`-joined sequence of
 * site tokens; a token is `NONE`, an edit code, or an `&`-joined list of
 * sub-alleles; the letter `S` in a token marks a substitution call, which
 * is treated as sequencing noise and removed.
 */
module Substitutions {
  import opened Text

  /** The token of an unedited site. */
  const NoEdit: string := "NONE"

  /** The token holds a substitution call. */
  predicate MismatchExists(siteEdit: string): (b: bool)
    ensures b <==> exists i :: 0 <= i < |siteEdit| && siteEdit[i] == 'S'
  {
    'S' in siteEdit
  }

  /** The token lists several sub-alleles joined by `&`. */
  predicate IsMultiAllelic(siteEdit: string): (b: bool)
    ensures b <==> exists i :: 0 <= i < |siteEdit| && siteEdit[i] == '&'
  {
    '&' in siteEdit
  }

  /** The sub-alleles that carry no substitution, in their original order. */
  function WithoutMismatches(alleles: seq<string>): (kept: seq<string>)
    ensures |kept| <= |alleles|
    ensures forall i :: 0 <= i < |kept| ==> kept[i] in alleles && !MismatchExists(kept[i])
  {
    if alleles == [] then []
    else if MismatchExists(alleles[0]) then WithoutMismatches(alleles[1..])
    else [alleles[0]] + WithoutMismatches(alleles[1..])
  }

  /** Python's `list.remove(x)`: drop the first element equal to `x`. */
  function RemoveFirst(s: seq<string>, x: string): (r: seq<string>)
    requires x in s
    ensures |r| == |s| - 1
  {
    if s[0] == x then s[1..] else [s[0]] + RemoveFirst(s[1..], x)
  }

  /** `list.remove` takes away one copy of the value and keeps the rest. */
  lemma {:induction false} RemoveFirstMultiset(s: seq<string>, x: string)
    requires x in s
    ensures multiset(RemoveFirst(s, x)) == multiset(s) - multiset{x}
    decreases |s|
  {
    assert s == [s[0]] + s[1..];
    if s[0] != x {
      RemoveFirstMultiset(s[1..], x);
    }
  }

  /** What one site becomes: kept when it has no substitution, `NONE` when
      it is a lone substitution, otherwise the `&`-join of its clean
      sub-alleles (the empty string when none is clean). */
  function CleanSite(site: string): string
  {
    if !MismatchExists(site) then site
    else if !IsMultiAllelic(site) then NoEdit
    else Join(WithoutMismatches(Split(site, '&')), '&')
  }

  function CleanSites(sites: seq<string>): (r: seq<string>)
    ensures |r| == |sites|
  {
    seq(|sites|, i requires 0 <= i < |sites| => CleanSite(sites[i]))
  }

  /** The barcode with every site cleaned, rejoined with `_`. */
  function CleanBarcode(barcode: string): string
  {
    Join(CleanSites(Split(barcode, '_')), '_')
  }

  /** Removing the first occurrence of a value whose earlier positions do
      not hold it cuts exactly that position out. */
  lemma {:induction false} RemoveFirstAt(s: seq<string>, x: string, k: nat)
    requires k < |s| && s[k] == x
    requires forall j :: 0 <= j < k ==> s[j] != x
    ensures RemoveFirst(s, x) == s[..k] + s[k + 1..]
    decreases k
  {
    if k > 0 {
      RemoveFirstAt(s[1..], x, k - 1);
      assert s[1..][..k - 1] == s[1..k];
      assert s[1..][k..] == s[k + 1..];
      assert [s[0]] + s[1..k] == s[..k];
    }
  }

  lemma {:induction false} WithoutMismatchesSnoc(s: seq<string>, x: string)
    ensures WithoutMismatches(s + [x]) == WithoutMismatches(s) + (if MismatchExists(x) then [] else [x])
    decreases |s|
  {
    if s == [] {
      assert [x][1..] == [];
    } else {
      assert (s + [x])[1..] == s[1..] + [x];
      WithoutMismatchesSnoc(s[1..], x);
    }
  }

  /** A sub-allele survives exactly when it occurs and has no substitution. */
  lemma {:induction false} WithoutMismatchesKeeps(alleles: seq<string>, x: string)
    ensures x in WithoutMismatches(alleles) <==> x in alleles && !MismatchExists(x)
    decreases |alleles|
  {
    if alleles != [] {
      WithoutMismatchesKeeps(alleles[1..], x);
      assert alleles == [alleles[0]] + alleles[1..];
    }
  }

  /** One step of the inner loop when the visited sub-allele carries a
      substitution: it sits just after the clean prefix, so removing its
      first occurrence removes that copy. */
  lemma DropStep(alleles: seq<string>, allelesCopy: seq<string>, j: nat)
    requires j < |allelesCopy| && MismatchExists(allelesCopy[j])
    requires alleles == WithoutMismatches(allelesCopy[..j]) + allelesCopy[j..]
    ensures allelesCopy[j] in alleles
    ensures RemoveFirst(alleles, allelesCopy[j]) == WithoutMismatches(allelesCopy[..j + 1]) + allelesCopy[j + 1..]
  {
    var aa, done, rest := allelesCopy[j], WithoutMismatches(allelesCopy[..j]), allelesCopy[j..];
    assert allelesCopy[..j + 1] == allelesCopy[..j] + [aa];
    WithoutMismatchesSnoc(allelesCopy[..j], aa);
    assert rest[0] == aa && rest[1..] == allelesCopy[j + 1..];
    var k := |done|;
    assert alleles[k] == aa;
    forall i | 0 <= i < k ensures alleles[i] != aa {
      assert alleles[i] == done[i];
    }
    RemoveFirstAt(alleles, aa, k);
    assert alleles[..k] == done;
    assert alleles[k + 1..] == rest[1..];
  }

  /** The same step when the sub-allele is clean: the list is left alone. */
  lemma KeepStep(alleles: seq<string>, allelesCopy: seq<string>, j: nat)
    requires j < |allelesCopy| && !MismatchExists(allelesCopy[j])
    requires alleles == WithoutMismatches(allelesCopy[..j]) + allelesCopy[j..]
    ensures alleles == WithoutMismatches(allelesCopy[..j + 1]) + allelesCopy[j + 1..]
  {
    var aa := allelesCopy[j];
    assert allelesCopy[..j + 1] == allelesCopy[..j] + [aa];
    WithoutMismatchesSnoc(allelesCopy[..j], aa);
    assert allelesCopy[j..] == [aa] + allelesCopy[j + 1..];
  }

  /** The inner loop of `RemoveSubstitutions`: every sub-allele of a copy
      of the list that carries a substitution is removed from the list. */
  method DropMismatchedAlleles(alleles0: seq<string>) returns (alleles: seq<string>)
    ensures alleles == WithoutMismatches(alleles0)
  {
    alleles := alleles0;
    var allelesCopy := alleles;
    var j := 0;
    assert allelesCopy[..0] == [];
    while j < |allelesCopy|
      invariant 0 <= j <= |allelesCopy|
      invariant alleles == WithoutMismatches(allelesCopy[..j]) + allelesCopy[j..]
    {
      var aa := allelesCopy[j];
      if MismatchExists(aa) {
        DropStep(alleles, allelesCopy, j);
        alleles := RemoveFirst(alleles, aa);
      } else {
        KeepStep(alleles, allelesCopy, j);
      }
      j := j + 1;
    }
    assert allelesCopy[..j] == allelesCopy;
  }

  /** Modelled on `RemoveSubstitutions`: walks the sites, appending one
      entry per site; a multi-allelic site with a substitution is filtered
      by removing from the allele list while walking a copy of it. */
  method RemoveSubstitutions(barcode: string) returns (cleaned: string)
    ensures cleaned == CleanBarcode(barcode)
  {
    var editsArr := Split(barcode, '_');
    var validEdits: seq<string> := [];
    var i := 0;
    while i < |editsArr|
      invariant 0 <= i <= |editsArr|
      invariant validEdits == CleanSites(editsArr)[..i]
    {
      var x := editsArr[i];
      if !MismatchExists(x) {
        validEdits := validEdits + [x];
      } else if !IsMultiAllelic(x) {
        validEdits := validEdits + [NoEdit];
      } else {
        var alleles := DropMismatchedAlleles(Split(x, '&'));
        validEdits := validEdits + [Join(alleles, '&')];
      }
      i := i + 1;
    }
    assert CleanSites(editsArr)[..i] == CleanSites(editsArr);
    cleaned := Join(validEdits, '_');
  }

  /** A cleaned site never holds a substitution, and cleaning does not
      introduce a site separator. */
  lemma CleanSiteChars(site: string)
    ensures !MismatchExists(CleanSite(site))
    ensures '_' !in site ==> '_' !in CleanSite(site)
  {
    if MismatchExists(site) && IsMultiAllelic(site) {
      var parts := Split(site, '&');
      var kept := WithoutMismatches(parts);
      SplitPieces(site, '&');
      JoinAvoids(kept, '&', 'S');
      if '_' !in site {
        forall i | 0 <= i < |kept| ensures '_' !in kept[i] {
          var k :| 0 <= k < |parts| && parts[k] == kept[i];
        }
        JoinAvoids(kept, '&', '_');
      }
    }
  }

  /** Cleaning keeps the number of `_`-separated sites and their order, and
      each site becomes what the per-site rule says. */
  lemma CleanBarcodeSites(barcode: string)
    ensures |Split(CleanBarcode(barcode), '_')| == |Split(barcode, '_')|
    ensures forall i :: 0 <= i < |Split(barcode, '_')| ==>
              Split(CleanBarcode(barcode), '_')[i] == CleanSite(Split(barcode, '_')[i])
  {
    var sites := Split(barcode, '_');
    SplitPieces(barcode, '_');
    forall i | 0 <= i < |sites| ensures '_' !in CleanSites(sites)[i] {
      CleanSiteChars(sites[i]);
    }
    SplitJoin(CleanSites(sites), '_');
  }

  /** The per-site rule, stated as what the cleaned site is made of. */
  lemma CleanSiteRule(site: string)
    ensures !MismatchExists(site) ==> CleanSite(site) == site
    ensures MismatchExists(site) && !IsMultiAllelic(site) ==> CleanSite(site) == NoEdit
    ensures MismatchExists(site) && IsMultiAllelic(site) ==>
              var kept := WithoutMismatches(Split(site, '&'));
              (kept == [] ==> CleanSite(site) == "") &&
              (kept != [] ==> Split(CleanSite(site), '&') == kept)
  {
    if MismatchExists(site) && IsMultiAllelic(site) {
      var parts := Split(site, '&');
      var kept := WithoutMismatches(parts);
      if kept != [] {
        SplitPieces(site, '&');
        forall i | 0 <= i < |kept| ensures '&' !in kept[i] {
          var k :| 0 <= k < |parts| && parts[k] == kept[i];
        }
        SplitJoin(kept, '&');
      }
    }
  }

  /** The cleaned barcode holds no substitution at all. */
  lemma CleanBarcodeHasNoMismatch(barcode: string)
    ensures !MismatchExists(CleanBarcode(barcode))
  {
    var sites := CleanSites(Split(barcode, '_'));
    forall i | 0 <= i < |sites| ensures 'S' !in sites[i] {
      CleanSiteChars(Split(barcode, '_')[i]);
    }
    JoinAvoids(sites, '_', 'S');
  }

  /** A barcode without a substitution comes back unchanged. */
  lemma CleanBarcodeUnchanged(barcode: string)
    requires !MismatchExists(barcode)
    ensures CleanBarcode(barcode) == barcode
  {
    var sites := Split(barcode, '_');
    SplitPieces(barcode, '_');
    assert CleanSites(sites) == sites;
    JoinSplit(barcode, '_');
  }

  /** Cleaning twice is cleaning once. */
  lemma CleanBarcodeIdempotent(barcode: string)
    ensures CleanBarcode(CleanBarcode(barcode)) == CleanBarcode(barcode)
  {
    CleanBarcodeHasNoMismatch(barcode);
    CleanBarcodeUnchanged(CleanBarcode(barcode));
  }

  /** Cleaning a barcode given as its list of sites cleans each site. */
  lemma CleanJoinedSites(sites: seq<string>)
    requires |sites| >= 1 && NoneContain(sites, '_')
    ensures CleanBarcode(Join(sites, '_')) == Join(CleanSites(sites), '_')
  {
    SplitJoin(sites, '_');
  }

  lemma JoinTwoSites(x: string, y: string)
    ensures Join([x, y], '_') == x + "_" + y
  {
    assert [x, y][1..] == [y];
  }

  lemma JoinThreeSites(x: string, y: string, z: string)
    ensures Join([x, y, z], '_') == x + "_" + y + "_" + z
  {
    JoinTwoSites(y, z);
    assert [x, y, z][1..] == [y, z];
  }

  lemma CleanTwoSites(x: string, y: string)
    ensures CleanSites([x, y]) == [CleanSite(x), CleanSite(y)]
  {
  }

  lemma UneditedSiteKept()
    ensures CleanSite("NONE") == "NONE"
  {
    assert !MismatchExists("NONE") by {
      assert "NONE" == ['N', 'O', 'N', 'E'];
    }
  }

  lemma CleanLoneSites()
    ensures CleanSites(["NONE", "5M2S", "NONE"]) == ["NONE", "NONE", "NONE"]
  {
    var c := CleanSites(["NONE", "5M2S", "NONE"]);
    UneditedSiteKept();
    assert CleanSite("5M2S") == "NONE" by {
      assert MismatchExists("5M2S") && !IsMultiAllelic("5M2S");
    }
    assert c[0] == "NONE" && c[1] == "NONE" && c[2] == "NONE";
  }

  /** A lone substitution call between two unedited sites is erased. */
  lemma LoneSubstitutionExample()
    ensures CleanBarcode("NONE_5M2S_NONE") == "NONE_NONE_NONE"
  {
    var sites := ["NONE", "5M2S", "NONE"];
    JoinThreeSites("NONE", "NONE", "NONE");
    JoinThreeSites("NONE", "5M2S", "NONE");
    assert "NONE" + "_" + "NONE" + "_" + "NONE" == "NONE_NONE_NONE";
    assert "NONE" + "_" + "5M2S" + "_" + "NONE" == "NONE_5M2S_NONE";
    CleanJoinedSites(sites);
    CleanLoneSites();
  }

  lemma SplitAllelesExample()
    ensures Split("A&5M2S", '&') == ["A", "5M2S"]
  {
    var alleles := ["A", "5M2S"];
    assert Join(alleles, '&') == "A&5M2S" by {
      assert "A&5M2S" == "A" + "&" + "5M2S";
    }
    SplitJoin(alleles, '&');
  }

  lemma CleanAllelesExample()
    ensures WithoutMismatches(["A", "5M2S"]) == ["A"]
  {
    var alleles := ["A", "5M2S"];
    assert MismatchExists("5M2S");
    assert alleles[1..] == ["5M2S"];
  }

  /** Of the sub-alleles `A` and `5M2S`, only `A` is clean. */
  lemma MultiAllelicSiteExample()
    ensures CleanSite("A&5M2S") == "A"
  {
    SplitAllelesExample();
    CleanAllelesExample();
    assert MismatchExists("A&5M2S") && IsMultiAllelic("A&5M2S");
  }

  lemma CleanMultiSites()
    ensures CleanSites(["A&5M2S", "NONE"]) == ["A", "NONE"]
  {
    CleanTwoSites("A&5M2S", "NONE");
    MultiAllelicSiteExample();
    UneditedSiteKept();
  }

  /** The clean allele of a multi-allelic site survives on its own. */
  lemma MultiAllelicExample()
    ensures CleanBarcode("A&5M2S_NONE") == "A_NONE"
  {
    var sites := ["A&5M2S", "NONE"];
    JoinTwoSites("A", "NONE");
    JoinTwoSites("A&5M2S", "NONE");
    assert "A" + "_" + "NONE" == "A_NONE";
    assert "A&5M2S" + "_" + "NONE" == "A&5M2S_NONE";
    CleanJoinedSites(sites);
    CleanMultiSites();
  }
}
