/** Placeholder substitution in configured paths, and the version stamp used for the
    archive copy (locresexporter/exporter.py, `apply_language_to_path`,
    `get_game_version`, `apply_game_version_to_path`). */
module Paths {
  import opened Wrappers
  import opened Text

  const PakLanguageToken: string := "{pak_language}"
  const FolderLanguageToken: string := "{folder_language}"
  const GameVersionToken: string := "{game_version}"

  /** `apply_language_to_path`: every `{pak_language}` is replaced first, then every
      `{folder_language}` of that result. */
  function ApplyLanguage(path: string, pakLanguage: string, folderLanguage: string): (r: string)
    ensures !Occurs(path, PakLanguageToken) && !Occurs(path, FolderLanguageToken) ==> r == path
  {
    Replace(Replace(path, PakLanguageToken, pakLanguage), FolderLanguageToken, folderLanguage)
  }

  /** Once no placeholder is left, substituting again changes nothing. */
  lemma ApplyLanguageIdempotent(path: string, pakLanguage: string, folderLanguage: string)
    requires !Occurs(ApplyLanguage(path, pakLanguage, folderLanguage), PakLanguageToken)
    requires !Occurs(ApplyLanguage(path, pakLanguage, folderLanguage), FolderLanguageToken)
    ensures var once := ApplyLanguage(path, pakLanguage, folderLanguage);
      ApplyLanguage(once, pakLanguage, folderLanguage) == once
  {
  }

  /** The start of `{folder_language}` is not the start of `{pak_language}`. */
  lemma FolderTokenIsNotPakToken(b: string)
    requires '{' !in b
    ensures forall pak :: Replace(FolderLanguageToken + b, PakLanguageToken, pak) == FolderLanguageToken + b
  {
    forall pak: string ensures Replace(FolderLanguageToken + b, PakLanguageToken, pak) == FolderLanguageToken + b {
      var s := FolderLanguageToken + b;
      assert s[1] == 'f' && PakLanguageToken[1] == 'p';
      assert !(PakLanguageToken <= s);
      ReplaceAfterFreePrefix(s[1..], [], PakLanguageToken, pak);
      assert s[1..] + [] == s[1..];
      assert s == [s[0]] + s[1..];
    }
  }

  /** A path naming the folder language once, e.g. the `Game.locres` and `Game.csv`
      paths under `Localization/Game/{folder_language}/`, gets the folder code there. */
  lemma ApplyLanguageToFolderPath(a: string, b: string, pakLanguage: string, folderLanguage: string)
    requires '{' !in a && '{' !in b
    ensures ApplyLanguage(a + FolderLanguageToken + b, pakLanguage, folderLanguage)
         == a + folderLanguage + b
  {
    ReplaceAfterFreePrefix(a, FolderLanguageToken + b, PakLanguageToken, pakLanguage);
    FolderTokenIsNotPakToken(b);
    assert a + FolderLanguageToken + b == a + (FolderLanguageToken + b);
    ReplaceLoneOccurrence(a, FolderLanguageToken, b, folderLanguage);
  }

  /** A path naming the pak language once, such as the text pak path, gets the pak code
      there, provided the code brings in no placeholder of its own. */
  lemma ApplyLanguageToPakPath(a: string, b: string, pakLanguage: string, folderLanguage: string)
    requires '{' !in a && '{' !in b && '{' !in pakLanguage
    ensures ApplyLanguage(a + PakLanguageToken + b, pakLanguage, folderLanguage)
         == a + pakLanguage + b
  {
    ReplaceLoneOccurrence(a, PakLanguageToken, b, pakLanguage);
    var once := a + pakLanguage + b;
    assert '{' !in once;
    ReplaceAfterFreePrefix(once, [], FolderLanguageToken, folderLanguage);
    assert once + [] == once;
  }

  /** The two substitutions run one after the other, not in a single pass: a pak code
      that itself reads `{folder_language}` is substituted a second time. */
  lemma ApplyLanguageIsSequential(a: string, b: string, folderLanguage: string)
    requires '{' !in a && '{' !in b
    ensures ApplyLanguage(a + PakLanguageToken + b, FolderLanguageToken, folderLanguage)
         == a + folderLanguage + b
  {
    ReplaceLoneOccurrence(a, PakLanguageToken, b, FolderLanguageToken);
    ReplaceLoneOccurrence(a, FolderLanguageToken, b, folderLanguage);
  }

  /** `s.rsplit('.')[-1]`: the text after the last `.`, or all of `s` when it has none.
      Splitting from the right on one character gives the same pieces as `Split`. */
  function LastDotPart(s: string): (r: string)
    ensures '.' !in r
    ensures |r| <= |s| && s[|s| - |r|..] == r
    ensures |r| == |s| || s[|s| - |r| - 1] == '.'
  {
    var parts := Split(s, ".");
    SplitLast(s, ".");
    SplitPiecesAreFree(s, ".");
    OccursChar(parts[|parts| - 1], '.');
    parts[|parts| - 1]
  }

  /** `s.lstrip('0')`: drops the leading zeros and nothing else. */
  function StripLeadingZeros(s: string): (r: string)
    ensures |r| <= |s| && s[|s| - |r|..] == r
    ensures r == [] || r[0] != '0'
    ensures forall i :: 0 <= i < |s| - |r| ==> s[i] == '0'
    decreases |s|
  {
    if |s| > 0 && s[0] == '0' then StripLeadingZeros(s[1..]) else s
  }

  /** The build number: the last `.`-separated part of the fourth field, without its
      leading zeros. */
  function BuildNumber(field: string): (r: string)
    ensures '.' !in r
    ensures r == [] || r[0] != '0'
    ensures |r| <= |field| && field[|field| - |r|..] == r
  {
    var last := LastDotPart(field);
    var r := StripLeadingZeros(last);
    assert last[|last| - |r|..] == r;
    assert field[|field| - |r|..] == last[|last| - |r|..];
    r
  }

  /** `get_game_version`, from the cleaned list of strings decoded out of the executable:
      `<pak>-<field 0>-<field 2>-<build number of field 3>`. Fewer than four fields is the
      source's IndexError. */
  function GameVersion(pakLanguage: string, fields: seq<string>): (r: Option<string>)
    ensures r.Some? <==> |fields| >= 4
    ensures r.Some? ==> |r.value| > |pakLanguage| + 2 && r.value[..|pakLanguage|] == pakLanguage
  {
    if |fields| < 4 then None
    else Some(pakLanguage + "-" + fields[0] + "-" + fields[2] + "-" + BuildNumber(fields[3]))
  }

  lemma SuffixKeepsAbsence(s: string, r: string, c: char)
    requires |r| <= |s| && s[|s| - |r|..] == r && c !in s
    ensures c !in r
  {
  }

  /** When none of its parts contains a `-`, the stamp splits back into exactly the pak
      code, field 0, field 2 and the build number. */
  lemma GameVersionFields(pakLanguage: string, fields: seq<string>)
    requires |fields| >= 4
    requires '-' !in pakLanguage && '-' !in fields[0] && '-' !in fields[2] && '-' !in fields[3]
    ensures Split(GameVersion(pakLanguage, fields).value, "-")
         == [pakLanguage, fields[0], fields[2], BuildNumber(fields[3])]
  {
    var b := BuildNumber(fields[3]);
    var last := LastDotPart(fields[3]);
    SuffixKeepsAbsence(fields[3], last, '-');
    SuffixKeepsAbsence(last, b, '-');
    var parts := [pakLanguage, fields[0], fields[2], b];
    JoinFour(pakLanguage, fields[0], fields[2], b, "-");
    SplitOfJoin(parts, "-");
  }

  /** `apply_game_version_to_path`: the version is computed first (so too few fields fail
      even for a path without the placeholder), then every `{game_version}` is replaced. */
  function ApplyGameVersion(jsonPath: string, pakLanguage: string, fields: seq<string>): (r: Option<string>)
    ensures r.Some? <==> |fields| >= 4
    ensures r.Some? && !Occurs(jsonPath, GameVersionToken) ==> r.value == jsonPath
  {
    match GameVersion(pakLanguage, fields)
    case None => None
    case Some(version) => Some(Replace(jsonPath, GameVersionToken, version))
  }

  /** An output path with one `{game_version}` gets the stamp there. */
  lemma ApplyGameVersionToArchivePath(a: string, b: string, pakLanguage: string, fields: seq<string>)
    requires '{' !in a && '{' !in b && |fields| >= 4
    ensures ApplyGameVersion(a + GameVersionToken + b, pakLanguage, fields)
         == Some(a + GameVersion(pakLanguage, fields).value + b)
  {
    ReplaceLoneOccurrence(a, GameVersionToken, b, GameVersion(pakLanguage, fields).value);
  }
}
