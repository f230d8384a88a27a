/**
 * Candidate selection: the list comprehension that keeps the directory
 * entries whose lower-cased name ends in ".jpg", ".png" or ".jpeg".
 */
module Selection {
  import opened Text

  /** `f.lower().endswith(('.jpg', '.png', '.jpeg'))`. */
  predicate IsImageName(f: string)
  {
    var low := Lower(f);
    EndsWith(low, ".jpg") || EndsWith(low, ".png") || EndsWith(low, ".jpeg")
  }

  /** `[f for f in listing if IsImageName(f)]`, in listing order. */
  function Select(listing: seq<string>): (r: seq<string>)
    ensures |r| <= |listing|
    ensures forall k :: 0 <= k < |r| ==> IsImageName(r[k])
  {
    if listing == [] then []
    else
      var last := listing[|listing| - 1];
      Select(listing[..|listing| - 1]) + if IsImageName(last) then [last] else []
  }

  /**
   * Where each selected name sits in the listing. The positions rise
   * strictly, so the selection is a subsequence of the listing in its
   * original order, and they are exactly the positions of image names.
   */
  function SelectedPositions(listing: seq<string>): (idx: seq<nat>)
    ensures |idx| == |Select(listing)|
    ensures forall k :: 0 <= k < |idx| ==> idx[k] < |listing| && listing[idx[k]] == Select(listing)[k]
    ensures forall k, m :: 0 <= k < m < |idx| ==> idx[k] < idx[m]
  {
    if listing == [] then []
    else
      var n := |listing| - 1;
      var init := listing[..n];
      assert forall j :: 0 <= j < n ==> init[j] == listing[j];
      SelectedPositions(init) + if IsImageName(listing[n]) then [n] else []
  }

  /** The selected positions are exactly the positions of image names. */
  lemma {:induction false} SelectedPositionsExactly(listing: seq<string>, j: nat)
    requires j < |listing|
    ensures IsImageName(listing[j]) <==> j in SelectedPositions(listing)
  {
    var n := |listing| - 1;
    var init := listing[..n];
    var rest := SelectedPositions(init);
    assert SelectedPositions(listing) == rest + if IsImageName(listing[n]) then [n] else [];
    assert n !in rest;
    if j < n {
      assert init[j] == listing[j];
      SelectedPositionsExactly(init, j);
    }
  }

  /** A name is selected exactly when it is listed and is an image name. */
  lemma {:induction false} SelectMembership(listing: seq<string>, f: string)
    ensures f in Select(listing) <==> f in listing && IsImageName(f)
  {
    if listing != [] {
      var n := |listing| - 1;
      SelectMembership(listing[..n], f);
      assert listing == listing[..n] + [listing[n]];
    }
  }

  /** Filtering the selection again changes nothing. */
  lemma {:induction false} SelectIdempotent(listing: seq<string>)
    ensures Select(Select(listing)) == Select(listing)
  {
    if listing != [] {
      var n := |listing| - 1;
      SelectIdempotent(listing[..n]);
      var r := Select(listing);
      if IsImageName(listing[n]) {
        var m := |r| - 1;
        assert r[..m] == Select(listing[..n]) && r[m] == listing[n];
        assert Select(r) == Select(r[..m]) + [r[m]];
        assert r == r[..m] + [r[m]];
      } else {
        assert r == Select(listing[..n]);
      }
    }
  }

  /** Two names that agree after lower-casing are both selected or both excluded. */
  lemma CaseVariantsAgree(a: string, b: string)
    requires Lower(a) == Lower(b)
    ensures IsImageName(a) <==> IsImageName(b)
  {
  }

  /** The upper-cased form of a name is selected exactly when the name is. */
  lemma UpperVariantAgrees(f: string)
    ensures IsImageName(Upper(f)) <==> IsImageName(f)
  {
    LowerOfUpper(f);
  }

  /**
   * Two listings whose entries agree up to case select the same positions,
   * so renaming files to another case never changes which are processed.
   */
  lemma {:induction false} SelectIgnoresCase(l1: seq<string>, l2: seq<string>)
    requires |l1| == |l2|
    requires forall j :: 0 <= j < |l1| ==> Lower(l1[j]) == Lower(l2[j])
    ensures SelectedPositions(l1) == SelectedPositions(l2)
  {
    if l1 != [] {
      var n := |l1| - 1;
      SelectIgnoresCase(l1[..n], l2[..n]);
      CaseVariantsAgree(l1[n], l2[n]);
    }
  }

  /** Any name whose extension is `.jpg`, `.png` or `.jpeg`, in any case, is selected. */
  lemma AllowedExtensionSelected(stem: string, ext: string)
    requires Lower(ext) == ".jpg" || Lower(ext) == ".png" || Lower(ext) == ".jpeg"
    ensures IsImageName(stem + ext)
  {
    var low := Lower(stem + ext);
    assert low == Lower(stem) + Lower(ext);
    assert low[|low| - |ext|..] == Lower(ext);
  }

  /**
   * Other extensions, and names that only contain an allowed one, are
   * excluded: each allowed extension ends in `g`, and these names do not.
   */
  lemma RejectedExamples()
    ensures !IsImageName("x.bmp") && !IsImageName("x.tiff") && !IsImageName("x.jpg.txt")
  {
    LowerWithoutCapitals("x.bmp");
    LowerWithoutCapitals("x.tiff");
    LowerWithoutCapitals("x.jpg.txt");
    assert "x.bmp"[4] != 'g';
    assert "x.tiff"[5] != 'g';
    assert "x.jpg.txt"[8] != 'g';
  }
}
