/**
 * The names the tracker derives from a peak: where an uploaded photo is
 * stored, and the key of a peak's "Summited" checkbox, which carries the
 * reset generation so that a factory reset gives every checkbox a new
 * identity.
 */
module Naming {
  import opened Text

  /** The data directory: "/data" when that volume exists, else the working directory. */
  function DataDir(hasDataVolume: bool): (r: string)
    ensures r != [] && r[|r| - 1] != '/'
    ensures r[0] == '/' <==> hasDataVolume
  {
    if hasDataVolume then "/data" else "."
  }

  /** `os.path.join` on POSIX for two parts: an absolute second part replaces the first. */
  function Join(a: string, b: string): (r: string)
    ensures |b| > 0 && b[0] == '/' ==> r == b
  {
    if |b| > 0 && b[0] == '/' then b
    else if a == [] || a[|a| - 1] == '/' then a + b
    else a + "/" + b
  }

  /** The `photos` directory inside the data directory. */
  function PhotosDir(hasDataVolume: bool): (r: string)
    ensures r == DataDir(hasDataVolume) + "/photos"
  {
    Join(DataDir(hasDataVolume), "photos")
  }

  /** The stored photo's file name: spaces of the peak name become `_`, then `_`, the view position and ".jpg". */
  function PhotoFileName(mountain: string, idx: nat): (r: string)
    ensures Free(r, ' ')
  {
    var stem := ReplaceChar(mountain, ' ', '_');
    var d := NatToDigits(idx);
    assert Free(d, ' ');
    stem + "_" + d + ".jpg"
  }

  /** Where the photo for the peak at view position `idx` is written. */
  function PhotoPath(hasDataVolume: bool, mountain: string, idx: nat): (r: string)
    ensures mountain == [] || mountain[0] != '/' ==> r == PhotosDir(hasDataVolume) + "/" + PhotoFileName(mountain, idx)
  {
    Join(PhotosDir(hasDataVolume), PhotoFileName(mountain, idx))
  }

  /** Every photo path is some directory part, then `_`, the view position's digits and ".jpg". */
  lemma PhotoPathShape(hasDataVolume: bool, mountain: string, idx: nat)
    ensures exists stem :: PhotoPath(hasDataVolume, mountain, idx) == stem + "_" + NatToDigits(idx) + ".jpg"
  {
    var base := ReplaceChar(mountain, ' ', '_');
    var d := NatToDigits(idx);
    var name := PhotoFileName(mountain, idx);
    var dir := PhotosDir(hasDataVolume);
    assert name == base + "_" + d + ".jpg";
    if |name| > 0 && name[0] == '/' {
      assert PhotoPath(hasDataVolume, mountain, idx) == base + "_" + d + ".jpg";
    } else {
      assert PhotoPath(hasDataVolume, mountain, idx) == (dir + "/" + base) + "_" + d + ".jpg";
    }
  }

  /** Photos of different rows of the view are never written to the same file. */
  lemma PhotoPathsDistinct(hasDataVolume: bool, m1: string, i1: nat, m2: string, i2: nat)
    requires i1 != i2
    ensures PhotoPath(hasDataVolume, m1, i1) != PhotoPath(hasDataVolume, m2, i2)
  {
    PhotoPathShape(hasDataVolume, m1, i1);
    PhotoPathShape(hasDataVolume, m2, i2);
    var s1 :| PhotoPath(hasDataVolume, m1, i1) == s1 + "_" + NatToDigits(i1) + ".jpg";
    var s2 :| PhotoPath(hasDataVolume, m2, i2) == s2 + "_" + NatToDigits(i2) + ".jpg";
    if PhotoPath(hasDataVolume, m1, i1) == PhotoPath(hasDataVolume, m2, i2) {
      var p := PhotoPath(hasDataVolume, m1, i1);
      var d1, d2 := NatToDigits(i1), NatToDigits(i2);
      assert s1 + "_" + d1 == p[..|p| - 4];
      assert s2 + "_" + d2 == p[..|p| - 4];
      assert '_' !in d1 && '_' !in d2 by {
        assert forall k :: 0 <= k < |d1| ==> IsDigit(d1[k]);
        assert forall k :: 0 <= k < |d2| ==> IsDigit(d2[k]);
      }
      SuffixAfterSeparator(s1, d1, s2, d2, '_');
      NatToDigitsInjective(i1, i2);
    }
  }

  /** `f"chk_{idx}_{mountain}_{reset_id}"`. */
  function CheckboxKey(idx: nat, mountain: string, resetId: nat): (k: string)
    ensures AfterLast(k, '_') == NatToDigits(resetId)
  {
    var d := NatToDigits(resetId);
    assert '_' !in d by {
      assert forall i :: 0 <= i < |d| ==> IsDigit(d[i]);
    }
    AfterLastOf("chk_" + NatToDigits(idx) + "_" + mountain, d, '_');
    "chk_" + NatToDigits(idx) + "_" + mountain + "_" + d
  }

  /** After a reset bumps the generation, no checkbox key matches any key from before. */
  lemma CheckboxKeysChangeOnReset(i: nat, m: string, r: nat, j: nat, n: string, r': nat)
    requires r != r'
    ensures CheckboxKey(i, m, r) != CheckboxKey(j, n, r')
  {
    if CheckboxKey(i, m, r) == CheckboxKey(j, n, r') {
      NatToDigitsInjective(r, r');
    }
  }
}
