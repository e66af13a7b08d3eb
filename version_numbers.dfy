/**
 * Version names. A document carries a version ("1.3") and a file version;
 * Version.create derives the next name from the current one, bumping the
 * major number on a release and the minor number otherwise. Names are kept
 * as structured pairs and rendered with Format; Parse reads them back.
 */
module VersionNumbers {
  import opened Common
  import opened Text

  datatype VersionNumber = VersionNumber(major: nat, minor: nat)

  /** The rendering of a version: "<major>.<minor>". */
  function Format(v: VersionNumber): string {
    NatToString(v.major) + "." + NatToString(v.minor)
  }

  predicate AllDigits(s: string) {
    forall i :: 0 <= i < |s| ==> IsDigit(s[i])
  }

  /** Reads "<digits>.<digits>"; anything else is not a version name. */
  function Parse(s: string): (r: Option<VersionNumber>)
    ensures r.Some? ==> Contains(s, ".")
  {
    match IndexOf(s, ".")
    case None => None
    case Some(i) =>
      var a := s[..i];
      var b := s[i + 1..];
      if a != [] && b != [] && AllDigits(a) && AllDigits(b) then
        assert OccursAt(s, ".", i);
        Some(VersionNumber(ParseNat(a), ParseNat(b)))
      else None
  }

  /** Reading a rendered version gives the version back. */
  lemma ParseFormat(v: VersionNumber)
    ensures Parse(Format(v)) == Some(v)
  {
    var a := NatToString(v.major);
    var b := NatToString(v.minor);
    var s := Format(v);
    var i := |a|;
    assert OccursAt(s, ".", i);
    forall j | 0 <= j < i
      ensures !OccursAt(s, ".", j)
    {
      assert s[j] == a[j];
    }
    assert IndexOf(s, ".") == Some(i);
    assert s[..i] == a;
    assert s[i + 1..] == b;
    ParseNatToString(v.major);
    ParseNatToString(v.minor);
  }

  /** Two versions with the same rendering are the same version. */
  lemma FormatInjective(v: VersionNumber, w: VersionNumber)
    requires Format(v) == Format(w)
    ensures v == w
  {
    ParseFormat(v);
    ParseFormat(w);
  }

  /** Strict version order: by major number, then by minor number. */
  predicate Before(v: VersionNumber, w: VersionNumber) {
    v.major < w.major || (v.major == w.major && v.minor < w.minor)
  }

  /** The name Version.create gives the next version: a release bumps the major number. */
  function Next(v: VersionNumber, release: bool): (r: VersionNumber)
    ensures Before(v, r)
    ensures release ==> r.major == v.major + 1 && r.minor == 0
    ensures !release ==> r.major == v.major && r.minor == v.minor + 1
  {
    if release then VersionNumber(v.major + 1, 0) else VersionNumber(v.major, v.minor + 1)
  }

  /** The version reached from `v` after `k` minor (non-release) bumps. */
  function MinorBumps(v: VersionNumber, k: nat): VersionNumber {
    if k == 0 then v else Next(MinorBumps(v, k - 1), false)
  }

  lemma {:induction false} MinorBumpsAreGapless(v: VersionNumber, k: nat)
    ensures MinorBumps(v, k) == VersionNumber(v.major, v.minor + k)
  {
    if k > 0 {
      MinorBumpsAreGapless(v, k - 1);
    }
  }

  /** "1.0" after a release is "2.0"; after a minor change it is "1.1"; "1.3" goes to "1.4". */
  lemma NextOnNames()
    ensures Parse("1.0") == Some(VersionNumber(1, 0))
    ensures Format(Next(VersionNumber(1, 0), true)) == "2.0"
    ensures Format(Next(VersionNumber(1, 0), false)) == "1.1"
    ensures Format(Next(VersionNumber(1, 3), false)) == "1.4"
  {
    assert Format(VersionNumber(1, 0)) == "1.0";
    ParseFormat(VersionNumber(1, 0));
  }
}
