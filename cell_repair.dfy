/**
 * Numeric repair of decoded cell text in `predict_cells` (core.py):
 * `re.sub(r"(\d).\s+(\d)", r"\1.\2", s)`.
 *
 * `\d` is an ASCII digit, `\s` ASCII whitespace ([ \t\n\r\f\v]) and `.` any
 * character but a newline. Python's `re.sub` scans left to right, replaces
 * the leftmost match and resumes after it, so matches never overlap.
 */
module CellRepair {
  import opened Wrappers

  predicate IsDigit(c: char) { '0' <= c <= '9' }

  predicate IsSpace(c: char)
  {
    c == ' ' || c == '\t' || c == '\n' || c == '\r' || c == '\U{000B}' || c == '\U{000C}'
  }

  /** t as a whole is a match of the pattern: a digit, one character other
      than a newline, one or more whitespace characters, a digit. */
  ghost predicate IsMatch(t: string)
  {
    && |t| >= 4
    && IsDigit(t[0])
    && t[1] != '\n'
    && (forall i :: 2 <= i < |t| - 1 ==> IsSpace(t[i]))
    && IsDigit(t[|t| - 1])
  }

  /** Some match of the pattern occurs somewhere in s. */
  ghost predicate HasMatch(s: string)
  {
    exists p, e :: 0 <= p <= e <= |s| && IsMatch(s[p..e])
  }

  /** Length of the run of whitespace at the start of s (what greedy `\s+`
      consumes). */
  function SpaceRun(s: string): (n: nat)
    ensures n <= |s|
    ensures forall i :: 0 <= i < n ==> IsSpace(s[i])
    ensures n < |s| ==> !IsSpace(s[n])
  {
    if s != [] && IsSpace(s[0]) then 1 + SpaceRun(s[1..]) else 0
  }

  /** The end of the match of the pattern that starts at the beginning of s,
      if there is one. As `\s+` is greedy and a digit is not whitespace, only
      the whole whitespace run can be followed by the closing digit. */
  function MatchEnd(s: string): (m: Option<nat>)
    ensures m.Some? ==> 4 <= m.value <= |s| && IsMatch(s[..m.value])
  {
    if |s| >= 2 && IsDigit(s[0]) && s[1] != '\n' then
      var k := SpaceRun(s[2..]);
      if 1 <= k && 2 + k < |s| && IsDigit(s[2 + k]) then Some(3 + k) else None
    else None
  }

  /** The repaired text: every match, leftmost first and without overlap,
      becomes its first digit, '.', and its last digit. */
  function Repair(s: string): (r: string)
    ensures |r| <= |s|
    decreases |s|
  {
    if s == [] then []
    else match MatchEnd(s)
      case Some(e) => [s[0], '.', s[e - 1]] + Repair(s[e..])
      case None => [s[0]] + Repair(s[1..])
  }

  /** The list comprehension of line 179: each cell string repaired, in order. */
  function RepairCells(cells: seq<string>): seq<string>
  {
    seq(|cells|, i requires 0 <= i < |cells| => Repair(cells[i]))
  }

  // ---------------------------------------------------------------------
  // The matcher against the pattern

  /** MatchEnd finds exactly the matches anchored at the start of s: any
      prefix of s that matches is the one MatchEnd returns. */
  lemma MatchEndComplete(s: string, e: nat)
    requires e <= |s| && IsMatch(s[..e])
    ensures MatchEnd(s) == Some(e)
  {
    var t := s[..e];
    var k := SpaceRun(s[2..]);
    // the run covers positions 2 .. e-2 and stops at the digit at e-1
    if k < e - 3 {
      assert false;
    }
    if k > e - 3 {
      assert false;
    }
    assert s[2 + k] == t[e - 1];
  }

  /** A match in the tail s[1..] is a match in s, one position further on. */
  lemma MatchInTail(s: string, p: nat, e: nat)
    requires s != [] && p <= e <= |s| - 1
    ensures s[1..][p..e] == s[p + 1..e + 1]
  {
  }

  /** No match at the start of s means every match of s lies in its tail. */
  lemma HasMatchTail(s: string)
    requires s != [] && MatchEnd(s).None?
    ensures HasMatch(s) <==> HasMatch(s[1..])
  {
    if HasMatch(s) {
      var p, e :| 0 <= p <= e <= |s| && IsMatch(s[p..e]);
      if p == 0 {
        assert s[..e] == s[p..e];
        MatchEndComplete(s, e);
        assert false;
      }
      MatchInTail(s, p - 1, e - 1);
      assert IsMatch(s[1..][p - 1..e - 1]);
    }
    if HasMatch(s[1..]) {
      var p, e :| 0 <= p <= e <= |s| - 1 && IsMatch(s[1..][p..e]);
      MatchInTail(s, p, e);
      assert IsMatch(s[p + 1..e + 1]);
    }
  }

  // ---------------------------------------------------------------------
  // Properties of the repair

  /** The repair never makes a string longer; it makes it strictly shorter
      exactly when some match exists (each match of at least 4 characters
      becomes 3), and returns it unchanged exactly when none does. */
  lemma {:induction false} RepairShortens(s: string)
    ensures |Repair(s)| <= |s|
    ensures |Repair(s)| < |s| <==> HasMatch(s)
    ensures Repair(s) == s <==> !HasMatch(s)
    decreases |s|
  {
    if s == [] {
      assert !HasMatch(s);
    } else {
      match MatchEnd(s)
      case Some(e) =>
        RepairShortens(s[e..]);
        assert s[0..e] == s[..e];
      case None =>
        RepairShortens(s[1..]);
        HasMatchTail(s);
        assert s == [s[0]] + s[1..];
        if Repair(s) == s {
          assert Repair(s[1..]) == Repair(s)[1..];
        }
    }
  }

  /** Over the cells of a table: one result per cell, never longer than the
      cell, and equal to it exactly when the cell holds no match. */
  lemma RepairCellsShortens(cells: seq<string>)
    ensures |RepairCells(cells)| == |cells|
    ensures forall i :: 0 <= i < |cells| ==>
      && |RepairCells(cells)[i]| <= |cells[i]|
      && (RepairCells(cells)[i] == cells[i] <==> !HasMatch(cells[i]))
  {
    forall i | 0 <= i < |cells|
      ensures RepairCells(cells)[i] == cells[i] <==> !HasMatch(cells[i])
    {
      RepairShortens(cells[i]);
    }
  }

  /** A string with no digit is returned unchanged. */
  lemma RepairWithoutDigits(s: string)
    requires forall i :: 0 <= i < |s| ==> !IsDigit(s[i])
    ensures Repair(s) == s
  {
    RepairShortens(s);
  }

  /** The repair only removes characters and inserts '.': every character of
      the result is a character of the input or '.'. */
  lemma {:induction false} RepairCharacters(s: string)
    ensures forall c :: c in Repair(s) ==> c in s || c == '.'
    decreases |s|
  {
    if s != [] {
      match MatchEnd(s)
      case Some(e) =>
        RepairCharacters(s[e..]);
        assert s[e - 1] in s;
        forall c | c in Repair(s[e..]) ensures c in s || c == '.' {
          if c in s[e..] {
            var j :| 0 <= j < |s[e..]| && s[e..][j] == c;
            assert s[e + j] == c;
          }
        }
      case None =>
        RepairCharacters(s[1..]);
        forall c | c in Repair(s[1..]) ensures c in s || c == '.' {
          if c in s[1..] {
            var j :| 0 <= j < |s[1..]| && s[1..][j] == c;
            assert s[1 + j] == c;
          }
        }
    }
  }

  /** "12. 5" becomes "12.5": no match at '1' (its separator '2' is not
      followed by whitespace), then "2. 5" matches. */
  lemma RepairExampleDecimal()
    ensures Repair("12. 5") == "12.5"
  {
    var s := "12. 5";
    assert s[2..] == ". 5" && SpaceRun(". 5") == 0;
    assert MatchEnd(s) == None;
    var t := s[1..];
    assert t == "2. 5" && t[2..] == " 5";
    assert " 5"[1..] == "5" && SpaceRun("5") == 0 && SpaceRun(" 5") == 1;
    assert MatchEnd(t) == Some(4);
    assert t[4..] == [];
    assert Repair(t) == "2.5";
  }

  /** Text without digits is unchanged. */
  lemma RepairExampleText()
    ensures Repair("abc") == "abc"
  {
    RepairWithoutDigits("abc");
  }

  /** The separator may itself be a digit: "12 3" becomes "1.3". */
  lemma RepairExampleSeparatorDigit()
    ensures Repair("12 3") == "1.3"
  {
    var s := "12 3";
    assert s[2..] == " 3" && " 3"[1..] == "3" && SpaceRun("3") == 0 && SpaceRun(" 3") == 1;
    assert MatchEnd(s) == Some(4);
    assert s[4..] == [];
  }

  /** Matches do not overlap: in "1. 2. 3" the '2' closing the first match
      cannot open a second one. */
  lemma RepairExampleNoOverlap()
    ensures Repair("1. 2. 3") == "1.2. 3"
  {
    var s := "1. 2. 3";
    assert s[2..] == " 2. 3" && " 2. 3"[1..] == "2. 3" && SpaceRun("2. 3") == 0;
    assert SpaceRun(" 2. 3") == 1;
    assert MatchEnd(s) == Some(4);
    var t := s[4..];
    assert t == ". 3";
    RepairWithoutDigits(". ");
    assert t[1..] == " 3" && " 3"[1..] == "3";
    assert Repair("3") == "3";
    assert Repair(" 3") == " 3";
    assert Repair(t) == ". 3";
  }
}
