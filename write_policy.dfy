/** Whether and how the exporter opens its output files: `__begin_json_parse_dump` for
    the primary document and `__archive_json` for the version-stamped copy
    (locresexporter/exporter.py), with the file-system and console facts as inputs. */
module WritePolicy {

  /** The two `open` modes used for the JSON files. */
  datatype FileMode = Truncate | Exclusive {
    /** The mode string given to `open`: truncate-or-create, or create-only. */
    function Code(): string
    {
      match this
      case Truncate => "wt"
      case Exclusive => "xt"
    }
  }

  datatype WriteDecision = Write(mode: FileMode) | Skip

  /** `str.lower` on the ASCII letters. */
  function LowerChar(c: char): (r: char)
  {
    if 'A' <= c <= 'Z' then (c as int + 32) as char else c
  }

  /** The result has no capital ASCII letter, and each position is either the original
      character or the lower-case form of an original capital. */
  function Lower(s: string): (r: string)
    ensures |r| == |s|
    ensures forall i :: 0 <= i < |r| ==> !('A' <= r[i] <= 'Z')
    ensures forall i :: 0 <= i < |s| ==>
      r[i] == s[i] || ('A' <= s[i] <= 'Z' && r[i] as int == s[i] as int + 32)
  {
    seq(|s|, i requires 0 <= i < |s| => LowerChar(s[i]))
  }

  /** `overwrite.lower() == "y" or overwrite.lower() == "yes"`. */
  predicate Affirmative(answer: string)
  {
    Lower(answer) == "y" || Lower(answer) == "yes"
  }

  /** Every spelling of the answer that counts as a yes. */
  const YesAnswers: set<string> :=
    {"y", "Y", "yes", "yeS", "yEs", "yES", "Yes", "YeS", "YEs", "YES"}

  lemma LowerCharIs(c: char, lower: char)
    requires 'a' <= lower <= 'z'
    ensures LowerChar(c) == lower <==> c == lower || c == (lower as int - 32) as char
  {
  }

  /** The answers accepted are exactly "y" and "yes" in any mix of cases. */
  lemma AffirmativeSpellings(answer: string)
    ensures Affirmative(answer) <==> answer in YesAnswers
  {
    var low := Lower(answer);
    if |answer| == 1 {
      LowerCharIs(answer[0], 'y');
      assert low == "y" <==> low[0] == 'y';
      assert answer == [answer[0]];
    } else if |answer| == 3 {
      LowerCharIs(answer[0], 'y');
      LowerCharIs(answer[1], 'e');
      LowerCharIs(answer[2], 's');
      assert low == "yes" <==> low[0] == 'y' && low[1] == 'e' && low[2] == 's';
      assert answer == [answer[0], answer[1], answer[2]];
    } else {
      assert low != "y" && low != "yes";
    }
  }

  /** A mode fits a target when create-only, which fails on an existing file, is used only
      on a missing one, and truncation only on an existing one. */
  predicate ModeFits(mode: FileMode, targetExists: bool)
  {
    mode == Exclusive <==> !targetExists
  }

  /** `__begin_json_parse_dump`: a missing target is created; an existing one is
      overwritten when forced, and otherwise only if the user's answer is a yes. The
      answer is what `input()` returned and is consulted only in that last case. */
  function PrimaryDecision(targetExists: bool, forceOverwrite: bool, answer: string): (d: WriteDecision)
    ensures !targetExists ==> d == Write(Exclusive)
    ensures targetExists && forceOverwrite ==> d == Write(Truncate)
    ensures targetExists && !forceOverwrite ==>
      (d == Write(Truncate) <==> answer in YesAnswers) && (d == Skip <==> answer !in YesAnswers)
    ensures d.Write? ==> ModeFits(d.mode, targetExists)
    ensures d.Write? ==> d.mode.Code() == (if targetExists then "wt" else "xt")
  {
    AffirmativeSpellings(answer);
    AffirmativeSpellings("y");
    if targetExists then
      var overwrite := if !forceOverwrite then answer else "y";
      if Affirmative(overwrite) then Write(Truncate) else Skip
    else
      Write(Exclusive)
  }

  /** `__archive_json`'s mode: the copy is always written, truncating an existing file
      and creating a missing one; no question is asked. */
  function ArchiveMode(targetExists: bool): (mode: FileMode)
    ensures ModeFits(mode, targetExists)
    ensures mode.Code() == (if targetExists then "wt" else "xt")
  {
    if targetExists then Truncate else Exclusive
  }
}
