/** ociref/reference.go: the syntax of repository names and tags. */
module Names {

  predicate IsLowerAlnum(c: char) {
    ('a' <= c <= 'z') || ('0' <= c <= '9')
  }

  predicate IsWord(c: char) {
    c == '_' || ('a' <= c <= 'z') || ('A' <= c <= 'Z') || ('0' <= c <= '9')
  }

  predicate IsTagChar(c: char) {
    IsWord(c) || c == '.' || c == '-'
  }

  predicate IsValidTag(s: string) {
    0 < |s| <= 128 && IsWord(s[0]) && forall i :: 1 <= i < |s| ==> IsTagChar(s[i])
  }

  /** checkTag */
  method CheckTag(s: string) returns (ok: bool)
    ensures ok == IsValidTag(s)
  {
    if |s| == 0 { return false; }
    if |s| > 128 { return false; }
    if !IsWord(s[0]) { return false; }
    for i := 1 to |s|
      invariant forall j :: 1 <= j < i ==> IsTagChar(s[j])
    {
      var c := s[i];
      if !IsWord(c) && c != '.' && c != '-' { return false; }
    }
    return true;
  }

  /** Where a scan of the repository name pattern stands: before a component or
      after a complete separator, inside an alphanumeric run, or inside a
      separator that may still grow. */
  datatype Scan = Need | Run | Underscore | Dashes

  /** One character of pathComponent("/"pathComponent)*, where a component is
      alphanumeric runs joined by ".", "_", "__" or one or more "-". */
  function Next(state: Scan, c: char): (r: (Scan, bool)) {
    match state
    case Need => (Run, IsLowerAlnum(c))
    case Run =>
      if IsLowerAlnum(c) then (Run, true)
      else if c == '/' || c == '.' then (Need, true)
      else if c == '_' then (Underscore, true)
      else (Dashes, c == '-')
    case Underscore => if c == '_' then (Need, true) else (Run, IsLowerAlnum(c))
    case Dashes => if c == '-' then (Dashes, true) else (Run, IsLowerAlnum(c))
  }

  predicate Scans(state: Scan, s: string)
    decreases |s|
  {
    if s == [] then state == Run
    else
      var (next, ok) := Next(state, s[0]);
      ok && Scans(next, s[1..])
  }

  predicate IsValidRepository(s: string) {
    |s| <= 255 && Scans(Need, s)
  }

  predicate IsRepositoryChar(c: char) {
    IsLowerAlnum(c) || c == '.' || c == '_' || c == '-' || c == '/'
  }

  lemma {:induction false} ScannedChars(state: Scan, s: string)
    requires Scans(state, s)
    ensures forall c :: c in s ==> IsRepositoryChar(c)
    decreases |s|
  {
    if s != [] {
      assert s == [s[0]] + s[1..];
      ScannedChars(Next(state, s[0]).0, s[1..]);
    }
  }

  /** A repository name is not empty and has no character that a reference uses
      around it. */
  lemma RepositoryChars(s: string)
    requires IsValidRepository(s)
    ensures s != [] && ':' !in s && '@' !in s && ' ' !in s
  {
    ScannedChars(Need, s);
    assert !IsRepositoryChar(':') && !IsRepositoryChar('@') && !IsRepositoryChar(' ');
  }

  lemma TagChars(s: string)
    requires IsValidTag(s)
    ensures ':' !in s && '@' !in s && '/' !in s
  {
    assert forall i :: 0 <= i < |s| ==> IsTagChar(s[i]);
    assert !IsTagChar(':') && !IsTagChar('@') && !IsTagChar('/');
  }
}
