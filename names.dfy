/**
 * The display name a `Counter` derives once in its constructor
 * (Src/Program.cs): the performance-counter instance name with four tokens
 * removed, one `String.Replace(token, "")` after another.
 */
module DisplayNames {

  /** `t` occurs in `s` starting at index `i`. */
  predicate OccursAt(s: string, t: string, i: int) {
    0 <= i && i + |t| <= |s| && s[i..i + |t|] == t
  }

  predicate Contains(s: string, t: string) {
    exists i :: 0 <= i <= |s| && OccursAt(s, t, i)
  }

  /**
   * `s.Replace(t, "")` for a non-empty `t` (.NET refuses an empty one): scan
   * left to right and drop each occurrence of `t`, resuming after it, so
   * occurrences removed never overlap. Only whole copies of `t` are removed.
   */
  function RemoveAll(s: string, t: string): (r: string)
    requires |t| > 0
    ensures |r| <= |s|
    decreases |s|
  {
    if |s| < |t| then s
    else if s[..|t|] == t then RemoveAll(s[|t|..], t)
    else [s[0]] + RemoveAll(s[1..], t)
  }

  /** Removal shortens the string whenever the token occurs in it. */
  lemma {:induction false} RemoveAllShortens(s: string, t: string)
    requires |t| > 0
    requires Contains(s, t)
    ensures |RemoveAll(s, t)| < |s|
    decreases |s|
  {
    var i :| 0 <= i <= |s| && OccursAt(s, t, i);
    if s[..|t|] != t {
      assert 1 <= i && i + |t| <= |s|;
      assert s[1..][i - 1..i - 1 + |t|] == s[i..i + |t|];
      assert OccursAt(s[1..], t, i - 1);
      RemoveAllShortens(s[1..], t);
    }
  }

  /** An instance name without the token passes through unchanged. */
  lemma {:induction false} RemoveAllAbsent(s: string, t: string)
    requires |t| > 0
    requires !Contains(s, t)
    ensures RemoveAll(s, t) == s
    decreases |s|
  {
    if |s| >= |t| {
      assert !OccursAt(s, t, 0);
      assert s[..|t|] == s[0..|t|];
      forall i | OccursAt(s[1..], t, i) ensures false {
        assert s[i + 1..i + 1 + |t|] == s[1..][i..i + |t|];
        assert OccursAt(s, t, i + 1);
      }
      RemoveAllAbsent(s[1..], t);
      assert s == [s[0]] + s[1..];
    }
  }

  /** `Replace(t, "")` leaves `s` as it is exactly when `t` does not occur in it. */
  lemma RemoveAllUnchangedIff(s: string, t: string)
    requires |t| > 0
    ensures RemoveAll(s, t) == s <==> !Contains(s, t)
  {
    if Contains(s, t) {
      RemoveAllShortens(s, t);
    } else {
      RemoveAllAbsent(s, t);
    }
  }

  const DriveToken: string := "C:-"
  const VhdxToken: string := ".vhdx"
  const AvhdxToken: string := ".avhdx"
  const FolderToken: string := "Virtual Hard Disks-"

  /** `Name` of a Counter: the four removals in the source's order. */
  function DisplayName(instance: string): (name: string)
    ensures |name| <= |instance|
  {
    RemoveAll(RemoveAll(RemoveAll(RemoveAll(instance, DriveToken), VhdxToken), AvhdxToken), FolderToken)
  }

  predicate HasNoToken(s: string) {
    !Contains(s, DriveToken) && !Contains(s, VhdxToken) &&
    !Contains(s, AvhdxToken) && !Contains(s, FolderToken)
  }

  /**
   * The derived name equals the instance name exactly when the instance name
   * holds none of the four tokens; so the derivation is a no-op on such names.
   */
  lemma DisplayNameUnchangedIff(instance: string)
    ensures DisplayName(instance) == instance <==> HasNoToken(instance)
  {
    var s1 := RemoveAll(instance, DriveToken);
    var s2 := RemoveAll(s1, VhdxToken);
    var s3 := RemoveAll(s2, AvhdxToken);
    var s4 := RemoveAll(s3, FolderToken);
    RemoveAllUnchangedIff(instance, DriveToken);
    RemoveAllUnchangedIff(s1, VhdxToken);
    RemoveAllUnchangedIff(s2, AvhdxToken);
    RemoveAllUnchangedIff(s3, FolderToken);
    if s4 == instance {
      RemoveAllShortensIfChanged(instance, DriveToken);
      RemoveAllShortensIfChanged(s1, VhdxToken);
      RemoveAllShortensIfChanged(s2, AvhdxToken);
      RemoveAllShortensIfChanged(s3, FolderToken);
    }
  }

  lemma RemoveAllShortensIfChanged(s: string, t: string)
    requires |t| > 0
    ensures RemoveAll(s, t) == s || |RemoveAll(s, t)| < |s|
  {
    RemoveAllUnchangedIff(s, t);
    if Contains(s, t) {
      RemoveAllShortens(s, t);
    }
  }

  /** Occurrences are taken left to right and never overlap: "aaa" loses one "aa". */
  lemma RemoveAllLeftToRight()
    ensures RemoveAll("aaa", "aa") == "a"
  {
  }

  /** One pass only: a token split by another occurrence survives, so a second derivation would change the name again. */
  lemma NestedTokenSurvives()
    ensures DisplayName("C:C:--d") == "C:-d"
  {
    assert RemoveAll("-d", DriveToken) == "-d";
    assert RemoveAll("C:--d", DriveToken) == "-d";
    assert RemoveAll(":C:--d", DriveToken) == ":-d";
    assert RemoveAll("C:C:--d", DriveToken) == "C:-d";
    assert RemoveAll("C:-d", VhdxToken) == "C:-d";
    assert RemoveAll("C:-d", AvhdxToken) == "C:-d";
    assert RemoveAll("C:-d", FolderToken) == "C:-d";
  }
}
