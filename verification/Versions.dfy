/** MAJOR.MINOR.PATCH version text (Semantic Versioning 2.0.0, item 2) and its successor. */
module Versions {
  import opened Options
  import Decimal

  datatype Version = Version(major: nat, minor: nat, patch: nat)

  /** The largest integer n for which every integer up to n is an IEEE double. */
  const MAX_EXACT: nat := 0x20_0000_0000_0000

  /** Position of the first dot, or the length when there is none. */
  function FirstDot(s: string): (i: nat)
    ensures i <= |s|
    ensures i < |s| ==> s[i] == '.'
    ensures forall k :: 0 <= k < i ==> s[k] != '.'
  {
    if s == "" || s[0] == '.' then 0 else 1 + FirstDot(s[1..])
  }

  datatype Triple = Triple(major: string, minor: string, patch: string)

  function Join(t: Triple): string {
    t.major + "." + t.minor + "." + t.patch
  }

  lemma JoinSplits(s: string, i: nat, j: nat)
    requires i < |s| && s[i] == '.' && i + 1 + j < |s| && s[i + 1 + j] == '.'
    ensures Join(Triple(s[..i], s[i + 1..][..j], s[i + 1..][j + 1..])) == s
  {
    var rest := s[i + 1..];
    assert rest == rest[..j] + "." + rest[j + 1..];
    assert s == s[..i] + "." + rest;
  }

  /** The three groups of a version regular expression: digits between two dots. */
  function Groups(s: string): (r: Option<Triple>)
    ensures r.Some? ==> Join(r.value) == s
    ensures r.Some? ==> Decimal.IsNumeral(r.value.major) && Decimal.IsNumeral(r.value.minor)
                        && Decimal.IsNumeral(r.value.patch)
  {
    var i := FirstDot(s);
    if i == |s| then None else
      var rest := s[i + 1..];
      var j := FirstDot(rest);
      if j == |rest| then None else
        var t := Triple(s[..i], rest[..j], rest[j + 1..]);
        assert Join(t) == s by { JoinSplits(s, i, j); }
        if Decimal.IsNumeral(t.major) && Decimal.IsNumeral(t.minor) && Decimal.IsNumeral(t.patch)
        then Some(t) else None
  }

  /** `/^(0|[1-9]\d*)\.(0|[1-9]\d*)\.(0|[1-9]\d*)$/` */
  predicate IsVersion(s: string) {
    var g := Groups(s);
    g.Some? && Decimal.IsCanonical(g.value.major) && Decimal.IsCanonical(g.value.minor)
    && Decimal.IsCanonical(g.value.patch)
  }

  function Print(v: Version): string {
    Join(Triple(Decimal.Print(v.major), Decimal.Print(v.minor), Decimal.Print(v.patch)))
  }

  function Parse(s: string): Version
    requires IsVersion(s)
  {
    var g := Groups(s).value;
    Version(Decimal.Value(g.major), Decimal.Value(g.minor), Decimal.Value(g.patch))
  }

  /**
   * `Number(digits) + 1` printed back. Doubles are exact up to 2^53; there the
   * successor rounds back to 2^53 itself. What larger texts turn into is the
   * parameter `beyond`.
   */
  function NumberPlusOne(digits: string, beyond: string -> string): string
    requires Decimal.IsNumeral(digits)
  {
    var n := Decimal.Value(digits);
    if n < MAX_EXACT then Decimal.Print(n + 1)
    else if n == MAX_EXACT then Decimal.Print(n)
    else beyond(digits)
  }

  /** `incrementPatchVersion`; None where the source throws INVALID_STORED_VERSION. */
  function IncrementPatch(s: string, beyond: string -> string): Option<string> {
    match Groups(s)
    case None => None
    case Some(t) => Some(Join(t.(patch := NumberPlusOne(t.patch, beyond))))
  }

  lemma DotsSplit(a: string, b: string)
    requires forall k :: 0 <= k < |a| ==> a[k] != '.'
    ensures FirstDot(a + "." + b) == |a|
  {
    var s := a + "." + b;
    assert s[|a|] == '.';
    assert forall k :: 0 <= k < |a| ==> s[k] == a[k];
  }

  /** Joining three numerals and splitting again gives the same three groups. */
  lemma GroupsOfJoin(t: Triple)
    requires Decimal.IsNumeral(t.major) && Decimal.IsNumeral(t.minor) && Decimal.IsNumeral(t.patch)
    ensures Groups(Join(t)) == Some(t)
  {
    var s := Join(t);
    var rest := t.minor + "." + t.patch;
    assert s == t.major + "." + rest;
    DotsSplit(t.major, rest);
    assert s[..|t.major|] == t.major && s[|t.major| + 1..] == rest;
    DotsSplit(t.minor, t.patch);
    assert rest[..|t.minor|] == t.minor && rest[|t.minor| + 1..] == t.patch;
  }

  /** Printing and parsing versions are inverse on canonical text. */
  lemma RoundTrip(v: Version)
    ensures IsVersion(Print(v)) && Parse(Print(v)) == v
  {
    GroupsOfJoin(Triple(Decimal.Print(v.major), Decimal.Print(v.minor), Decimal.Print(v.patch)));
    Decimal.ValueOfPrint(v.major);
    Decimal.ValueOfPrint(v.minor);
    Decimal.ValueOfPrint(v.patch);
  }

  lemma VersionIsText(s: string)
    requires IsVersion(s)
    ensures s != ""
  {
    assert Join(Groups(s).value) == s;
  }

  lemma PrintInjective(v: Version, w: Version)
    requires Print(v) == Print(w)
    ensures v == w
  {
    RoundTrip(v);
    RoundTrip(w);
  }

  lemma PrintOfParse(s: string)
    requires IsVersion(s)
    ensures Print(Parse(s)) == s
  {
    var g := Groups(s).value;
    Decimal.PrintOfValue(g.major);
    Decimal.PrintOfValue(g.minor);
    Decimal.PrintOfValue(g.patch);
  }

  lemma SuccessorText(n: nat, beyond: string -> string)
    requires n <= MAX_EXACT
    ensures NumberPlusOne(Decimal.Print(n), beyond) == Decimal.Print(if n < MAX_EXACT then n + 1 else n)
  {
    Decimal.ValueOfPrint(n);
  }

  /** Incrementing adds one to the patch and to nothing else, up to 2^53 where it stands still. */
  lemma IncrementOfPrint(v: Version, beyond: string -> string)
    requires v.patch <= 0x20_0000_0000_0000
    ensures IncrementPatch(Print(v), beyond)
         == Some(Print(if v.patch < 0x20_0000_0000_0000 then v.(patch := v.patch + 1) else v))
  {
    var t := Triple(Decimal.Print(v.major), Decimal.Print(v.minor), Decimal.Print(v.patch));
    GroupsOfJoin(t);
    SuccessorText(v.patch, beyond);
  }

  lemma SamePatchText(major: string, minor: string, a: string, b: string)
    ensures Join(Triple(major, minor, a)) == Join(Triple(major, minor, b)) <==> a == b
  {
    var prefix := major + "." + minor + ".";
    assert (prefix + a)[|prefix|..] == a && (prefix + b)[|prefix|..] == b;
  }

  /** Beyond 2^53 the version stands still exactly when its patch text does. */
  lemma IncrementBeyond(v: Version, beyond: string -> string)
    requires v.patch > MAX_EXACT
    ensures IncrementPatch(Print(v), beyond) == Some(Print(v))
       <==> beyond(Decimal.Print(v.patch)) == Decimal.Print(v.patch)
  {
    var t := Triple(Decimal.Print(v.major), Decimal.Print(v.minor), Decimal.Print(v.patch));
    GroupsOfJoin(t);
    Decimal.ValueOfPrint(v.patch);
    SamePatchText(t.major, t.minor, beyond(t.patch), t.patch);
  }
}
