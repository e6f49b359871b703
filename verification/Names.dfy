// src/server/artifacts/names.ts: the flat storage name behind owner/repo.
module Names {
  import opened Wrappers
  import opened Text
  import Unicode

  datatype NameError = BadLength | BadCharacters | ConsecutiveHyphens | GitSuffix | ReservedName | ReservedLogin

  const SEPARATOR := "--"
  const WIKI := "wiki"
  const MAX_SEGMENT := 64

  const RESERVED_LOGINS: set<string> := {
    "api", "assets", "admin", "login", "logout", "signin", "signout", "settings", "new", "search", "explore",
    "notifications", "dashboard", "static", "favicon.ico", "robots.txt", "_build", ".well-known"
  }

  predicate Alphanumeric(c: char) { '0' <= c <= '9' || 'A' <= c <= 'Z' || 'a' <= c <= 'z' }

  predicate NameCharacter(c: char) { Alphanumeric(c) || c == '.' || c == '_' || c == '-' }

  predicate MatchesPattern(s: string) {
    s != "" && Alphanumeric(s[0]) && forall i | 0 <= i < |s| :: NameCharacter(s[i])
  }

  // value.includes(SEPARATOR)
  predicate HasSeparator(s: string) {
    |s| >= 2 && (s[..2] == SEPARATOR || HasSeparator(s[1..]))
  }

  // Length is counted in UTF-16 code units.
  function Length(value: string): nat { |Unicode.Utf16(value)| }

  function AssertSegment(value: string): Option<NameError> {
    if Length(value) == 0 || Length(value) > MAX_SEGMENT then Some(BadLength)
    else if !MatchesPattern(value) then Some(BadCharacters)
    else if HasSeparator(value) then Some(ConsecutiveHyphens)
    else if EndsWith(value, ".git") then Some(GitSuffix)
    else if value == "." || value == ".." then Some(ReservedName)
    else None
  }

  function LowerChar(c: char): char { if 'A' <= c <= 'Z' then (c as int + 32) as char else c }

  // toLowerCase, which only ever meets names of the pattern above.
  function Lower(s: string): (t: string)
    ensures |t| == |s| && forall i | 0 <= i < |s| :: t[i] == LowerChar(s[i])
  {
    seq(|s|, i requires 0 <= i < |s| => LowerChar(s[i]))
  }

  function AssertLogin(login: string): Option<NameError> {
    var error := AssertSegment(login);
    if error.Some? then error else if Lower(login) in RESERVED_LOGINS then Some(ReservedLogin) else None
  }

  function ArtifactsName(owner: string, repo: string): Result<string, NameError> {
    match AssertLogin(owner)
    case Some(error) => Err(error)
    case None =>
      match AssertSegment(repo)
      case Some(error) => Err(error)
      case None => Ok(Lower(owner) + SEPARATOR + Lower(repo))
  }

  function WikiArtifactsName(owner: string, repo: string): Result<string, NameError> {
    match ArtifactsName(owner, repo)
    case Err(error) => Err(error)
    case Ok(name) => Ok(name + SEPARATOR + WIKI)
  }

  // ---- which names there are --------------------------------------------------------

  predicate Letter(c: char) { 'A' <= c <= 'Z' || 'a' <= c <= 'z' }

  // The same character, or the same letter in the other case.
  predicate SameLetter(c: char, d: char) {
    c == d || (Letter(c) && Letter(d) && (c as int == d as int + 32 || d as int == c as int + 32))
  }

  // The same text up to the case of letters.
  predicate SameButCase(s: string, t: string) {
    |s| == |t| && forall i | 0 <= i < |s| :: SameLetter(s[i], t[i])
  }

  lemma LowerIs(s: string)
    ensures SameButCase(Lower(s), s) && forall i | 0 <= i < |s| :: !('A' <= Lower(s)[i] <= 'Z')
  {}

  lemma SameLowerIff(s: string, t: string)
    ensures Lower(s) == Lower(t) <==> SameButCase(s, t)
  {
    forall i | 0 <= i < |s| && i < |t| ensures LowerChar(s[i]) == LowerChar(t[i]) <==> SameLetter(s[i], t[i]) {}
    hide LowerChar, SameLetter;
    assert |s| == |t| && (forall i | 0 <= i < |s| :: Lower(s)[i] == Lower(t)[i]) ==> Lower(s) == Lower(t);
    assert Lower(s) == Lower(t) ==> forall i | 0 <= i < |s| :: LowerChar(s[i]) == Lower(t)[i];
  }

  // A name of one to 64 ASCII letters, digits, dots, underscores and hyphens, a letter or a digit
  // first, no two hyphens side by side and not ending in ".git".
  predicate Segment(s: string) {
    && 1 <= |s| <= 64 && (Letter(s[0]) || '0' <= s[0] <= '9')
    && (forall i | 0 <= i < |s| :: Letter(s[i]) || '0' <= s[i] <= '9' || s[i] in "._-")
    && (forall i | 0 < i < |s| :: !(s[i] == '-' && s[i - 1] == '-'))
    && !(|s| >= 4 && s[|s| - 4..] == ".git")
  }

  lemma {:induction false} LengthOfAscii(s: string)
    ensures Length(s) >= |s|
    ensures (forall i | 0 <= i < |s| :: s[i] as int < 128) ==> Length(s) == |s|
  {
    if s != "" {
      LengthOfAscii(s[1..]);
      assert (forall i | 0 <= i < |s| :: s[i] as int < 128) ==>
        s[0] as int < 128 && forall i | 0 <= i < |s[1..]| :: s[1..][i] as int < 128;
    }
  }

  lemma {:induction false} SeparatorIff(s: string)
    ensures HasSeparator(s) <==> exists i | 0 < i < |s| :: s[i] == '-' && s[i - 1] == '-'
  {
    if HasSeparator(s) {
      var i := SeparatorSomewhere(s);
      assert s[i..i + 2][0] == '-' && s[i..i + 2][1] == '-';
      assert s[i + 1] == '-' && s[i + 1 - 1] == '-';
    }
    if i :| 0 < i < |s| && s[i] == '-' && s[i - 1] == '-' {
      assert s[i - 1..i - 1 + 2] == SEPARATOR;
      SeparatorAt(s, i - 1);
    }
  }

  // What a name must be like, and which rule the error names.
  lemma {:induction false} SegmentIff(s: string)
    ensures AssertSegment(s).None? <==> Segment(s)
    ensures match AssertSegment(s)
      case None => true
      case Some(BadLength) => s == "" || Length(s) > 64
      case Some(BadCharacters) => !MatchesPattern(s)
      case Some(ConsecutiveHyphens) => exists i | 0 < i < |s| :: s[i] == '-' && s[i - 1] == '-'
      case Some(GitSuffix) => |s| >= 4 && s[|s| - 4..] == ".git"
      case Some(_) => false
  {
    LengthOfAscii(s);
    SeparatorIff(s);
    hide Length, HasSeparator;
    assert MatchesPattern(s) ==> s != "." && s != "..";
  }

  // Who may own repositories: no word that the application keeps for itself, in any letter case.
  lemma {:induction false} LoginIff(login: string)
    ensures AssertLogin(login).None? <==> Segment(login) && forall word | word in RESERVED_LOGINS :: !SameButCase(login, word)
  {
    SegmentIff(login);
    forall word | word in RESERVED_LOGINS ensures SameButCase(login, word) <==> Lower(login) == word {
      SameLowerIff(login, word);
      ReservedIsLower(word);
    }
  }

  lemma ReservedIsLower(word: string)
    requires word in RESERVED_LOGINS
    ensures Lower(word) == word
  {}

  // A repository has a storage name exactly if its owner and its own name are proper.
  lemma {:induction false} NamedIff(owner: string, repo: string)
    ensures ArtifactsName(owner, repo).Ok? <==> AssertLogin(owner).None? && Segment(repo)
    ensures WikiArtifactsName(owner, repo).Ok? <==> ArtifactsName(owner, repo).Ok?
  {
    SegmentIff(repo);
  }

  // ---- reading a name back ----------------------------------------------------------

  // What stands before and after the last separator.
  function SplitLast(s: string): Option<(string, string)>
    decreases |s|
  {
    if |s| < 2 then None
    else if EndsWith(s, SEPARATOR) then Some((s[..|s| - 2], ""))
    else
      match SplitLast(s[..|s| - 1])
      case None => None
      case Some((before, after)) => Some((before, after + [s[|s| - 1]]))
  }

  // What may follow a separator without hiding it.
  predicate Follows(after: string) { after == "" || (after[0] != '-' && !HasSeparator(after)) }

  lemma {:induction false} SeparatorAt(s: string, i: nat)
    requires i + 2 <= |s| && s[i..i + 2] == SEPARATOR
    ensures HasSeparator(s)
  {
    if i > 0 {
      assert s[1..][i - 1..i + 1] == s[i..i + 2];
      SeparatorAt(s[1..], i - 1);
    } else {
      assert s[..2] == s[0..2];
    }
  }

  lemma {:induction false} SeparatorSomewhere(s: string) returns (i: nat)
    requires HasSeparator(s)
    ensures i + 2 <= |s| && s[i..i + 2] == SEPARATOR
  {
    if s[..2] == SEPARATOR {
      i := 0;
    } else {
      var j := SeparatorSomewhere(s[1..]);
      i := j + 1;
      assert s[1..][j..j + 2] == s[i..i + 2];
    }
  }

  lemma {:induction false} FrontFollows(after: string)
    requires after != "" && Follows(after)
    ensures Follows(after[..|after| - 1])
  {
    var front := after[..|after| - 1];
    if HasSeparator(front) {
      var i := SeparatorSomewhere(front);
      assert after[i..i + 2] == front[i..i + 2];
      SeparatorAt(after, i);
    }
  }

  lemma {:induction false} NoSeparatorAtEnd(before: string, after: string)
    requires after != "" && Follows(after)
    ensures !EndsWith(before + SEPARATOR + after, SEPARATOR)
  {
    var s := before + SEPARATOR + after;
    if |after| >= 2 && s[|s| - 2..] == SEPARATOR {
      assert after[|after| - 2..|after|] == s[|s| - 2..];
      SeparatorAt(after, |after| - 2);
    }
    assert s[|s| - 2..][1] == after[|after| - 1];
  }

  // A separator before a segment is the last one, even right after another hyphen.
  lemma {:induction false} LastBeforeSegment(before: string, after: string)
    requires Follows(after)
    ensures SplitLast(before + SEPARATOR + after) == Some((before, after))
    decreases |after|
  {
    var s := before + SEPARATOR + after;
    if after == "" {
      assert s[|s| - 2..] == SEPARATOR;
      assert s[..|s| - 2] == before;
    } else {
      var front, last := after[..|after| - 1], after[|after| - 1];
      FrontFollows(after);
      NoSeparatorAtEnd(before, after);
      LastBeforeSegment(before, front);
      hide Follows, EndsWith;
      assert s[..|s| - 1] == before + SEPARATOR + front;
      assert front + [last] == after;
    }
  }

  // Case folding moves no hyphen.
  lemma {:induction false} LowerSegment(s: string)
    requires AssertSegment(s).None?
    ensures Lower(s) != "" && Follows(Lower(s))
  {
    assert s[0] != '-';
    if HasSeparator(Lower(s)) {
      var i := SeparatorSomewhere(Lower(s));
      assert Lower(s)[i..i + 2][0] == '-' && Lower(s)[i..i + 2][1] == '-';
      assert s[i..i + 2] == SEPARATOR;
      SeparatorAt(s, i);
    }
  }

  // A storage name gives back its owner and its repository, in lower case.
  lemma {:induction false} NameReadsBack(owner: string, repo: string)
    requires ArtifactsName(owner, repo).Ok?
    ensures SplitLast(ArtifactsName(owner, repo).value) == Some((Lower(owner), Lower(repo)))
  {
    LowerSegment(repo);
    LastBeforeSegment(Lower(owner), Lower(repo));
  }

  // A storage name is plain: at most 130 characters that the store accepts, none of them upper
  // case, the first of them alphanumeric; and no owner is a reserved word in any letter case.
  lemma {:induction false} NameIsPlain(owner: string, repo: string)
    requires ArtifactsName(owner, repo).Ok?
    ensures var name := ArtifactsName(owner, repo).value;
      |name| <= 130 && MatchesPattern(name) && Lower(name) == name && Lower(owner) !in RESERVED_LOGINS
  {
    var name := ArtifactsName(owner, repo).value;
    LengthOfAscii(owner);
    LengthOfAscii(repo);
    hide Length;
    forall i | 0 <= i < |name| ensures NameCharacter(name[i]) && LowerChar(name[i]) == name[i] {
      if i < |owner| {
        assert name[i] == LowerChar(owner[i]) && NameCharacter(owner[i]);
      } else if i < |owner| + 2 {
        assert name[i] == SEPARATOR[i - |owner|] == '-';
      } else {
        assert name[i] == LowerChar(repo[i - |owner| - 2]) && NameCharacter(repo[i - |owner| - 2]);
      }
    }
    assert Lower(name) == name;
    assert name[0] == LowerChar(owner[0]);
  }

  // Two repositories share storage exactly if their names differ in letter case only.
  lemma {:induction false} SameNameIff(owner: string, repo: string, owner': string, repo': string)
    requires ArtifactsName(owner, repo).Ok? && ArtifactsName(owner', repo').Ok?
    ensures ArtifactsName(owner, repo) == ArtifactsName(owner', repo') <==> SameButCase(owner, owner') && SameButCase(repo, repo')
  {
    SameLowerIff(owner, owner');
    SameLowerIff(repo, repo');
    NameReadsBack(owner, repo);
    NameReadsBack(owner', repo');
  }

  lemma WikiFollows()
    ensures Follows(WIKI)
  {
    assert WIKI[1..][1..][1..] == "i";
    assert WIKI[..2] != SEPARATOR && WIKI[1..][..2] != SEPARATOR && WIKI[1..][1..][..2] != SEPARATOR;
  }

  lemma {:induction false} WikiReadsBack(owner: string, repo: string)
    requires WikiArtifactsName(owner, repo).Ok?
    ensures SplitLast(WikiArtifactsName(owner, repo).value) == Some((ArtifactsName(owner, repo).value, WIKI))
  {
    WikiFollows();
    LastBeforeSegment(ArtifactsName(owner, repo).value, WIKI);
  }

  // No repository, whatever it is called, is stored where a wiki is.
  lemma {:induction false} WikiIsNoRepo(owner: string, repo: string, owner': string, repo': string)
    requires WikiArtifactsName(owner, repo).Ok? && ArtifactsName(owner', repo').Ok?
    ensures WikiArtifactsName(owner, repo).value != ArtifactsName(owner', repo').value
  {
    WikiReadsBack(owner, repo);
    NameReadsBack(owner', repo');
    LowerSegment(owner');
    var name := ArtifactsName(owner, repo).value;
    assert name[|owner|..|owner| + 2] == SEPARATOR;
    SeparatorAt(name, |owner|);
  }

  lemma {:induction false} SameWikiIff(owner: string, repo: string, owner': string, repo': string)
    requires WikiArtifactsName(owner, repo).Ok? && WikiArtifactsName(owner', repo').Ok?
    ensures WikiArtifactsName(owner, repo) == WikiArtifactsName(owner', repo')
        <==> SameButCase(owner, owner') && SameButCase(repo, repo')
  {
    WikiReadsBack(owner, repo);
    WikiReadsBack(owner', repo');
    SameNameIff(owner, repo, owner', repo');
  }

  // An owner may end in a hyphen, so the first separator does not tell the two halves apart.
  lemma FirstSeparatorMisleads()
    ensures ArtifactsName("a-", "b") == Ok("a---b") && "a---b"[1..3] == SEPARATOR && "a---b"[..1] != "a-"
  {
    var owner := "a-";
    assert owner[..2] == owner && owner[1] == '-' && owner[0] != '-' && SEPARATOR[0] == '-';
    assert |owner[1..]| == 1 && !HasSeparator(owner[1..]);
    assert !HasSeparator(owner) && !HasSeparator("b");
    assert |".git"| == 4;
    assert Lower("a-") == "a-" && Lower("b") == "b";
    assert "a-" + SEPARATOR + "b" == "a---b";
  }
}
