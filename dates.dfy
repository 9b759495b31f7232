/** The month/year key the monthly report derives from a due date. */
module Dates {

  /** The pieces of `s` between occurrences of `sep`, as Python's `str.split(sep)` gives them:
      always at least one piece, and empty pieces where separators are adjacent. */
  function Split(s: string, sep: char): (parts: seq<string>)
    ensures |parts| >= 1
    ensures forall k :: 0 <= k < |parts| ==> sep !in parts[k]
  {
    if s == [] then [[]]
    else
      var rest := Split(s[1..], sep);
      if s[0] == sep then [[]] + rest
      else [[s[0]] + rest[0]] + rest[1..]
  }

  /** The pieces glued back together with `sep` between neighbours, as `sep.join(parts)`. */
  function Join(parts: seq<string>, sep: char): string
    requires |parts| >= 1
  {
    if |parts| == 1 then parts[0] else parts[0] + [sep] + Join(parts[1..], sep)
  }

  /** Joining the pieces of a split gives the text back. */
  lemma {:induction false} JoinSplit(s: string, sep: char)
    ensures Join(Split(s, sep), sep) == s
  {
    if s != [] {
      var rest := Split(s[1..], sep);
      JoinSplit(s[1..], sep);
      if s[0] == sep {
        assert ([[]] + rest)[1..] == rest;
      } else if |rest| > 1 {
        var parts := [[s[0]] + rest[0]] + rest[1..];
        assert parts[1..] == rest[1..];
        calc {
          Join(parts, sep);
          ([s[0]] + rest[0]) + [sep] + Join(rest[1..], sep);
          [s[0]] + (rest[0] + [sep] + Join(rest[1..], sep));
          [s[0]] + Join(rest, sep);
          s;
        }
      }
    }
  }

  /** Joining splits at any inner boundary into the join of the first `j` pieces, a separator,
      and the join of the rest. */
  lemma {:induction false} JoinAt(parts: seq<string>, sep: char, j: nat)
    requires 0 < j < |parts|
    ensures Join(parts, sep) == Join(parts[..j], sep) + [sep] + Join(parts[j..], sep)
  {
    if j > 1 {
      JoinAt(parts[1..], sep, j - 1);
      assert parts[1..][..j - 1] == parts[..j][1..];
      assert parts[1..][j - 1..] == parts[j..];
    }
  }

  /** Pieces free of `sep` joined together hold one separator fewer than there are pieces. */
  lemma {:induction false} JoinCount(parts: seq<string>, sep: char)
    requires |parts| >= 1
    requires forall k :: 0 <= k < |parts| ==> sep !in parts[k]
    ensures multiset(Join(parts, sep))[sep] == |parts| - 1
  {
    if |parts| > 1 {
      JoinCount(parts[1..], sep);
      assert multiset(parts[0])[sep] == 0;
    } else {
      assert multiset(parts[0])[sep] == 0;
    }
  }

  /** The report key of a due date: its last (up to) two "/"-separated pieces, rejoined with "/". */
  function MonthKey(date: string): string {
    var parts := Split(date, '/');
    Join(parts[if |parts| >= 2 then |parts| - 2 else 0..], '/')
  }

  /** A text made of a front, a separator and a back has the back as a suffix, with the separator
      right before it. */
  lemma CutAt(date: string, front: string, sep: char, back: string)
    requires date == front + [sep] + back
    ensures |back| < |date| && back == date[|date| - |back|..] && date[|date| - |back| - 1] == sep
  {
    assert date[|front| + 1..] == back;
  }

  /** The key is a suffix of the date; when it is shorter than the date, a "/" stands right
      before it; a date with no "/" is its own key. */
  lemma MonthKeyIsSuffix(date: string)
    ensures |MonthKey(date)| <= |date|
    ensures MonthKey(date) == date[|date| - |MonthKey(date)|..]
    ensures |MonthKey(date)| < |date| ==> date[|date| - |MonthKey(date)| - 1] == '/'
    ensures '/' !in date ==> MonthKey(date) == date
  {
    var parts := Split(date, '/');
    JoinSplit(date, '/');
    if |parts| > 2 {
      var j := |parts| - 2;
      JoinAt(parts, '/', j);
      CutAt(date, Join(parts[..j], '/'), '/', Join(parts[j..], '/'));
    } else {
      assert parts[0..] == parts;
    }
  }

  /** The key holds one "/" exactly when the date holds one, and none otherwise: it is the
      longest suffix of the date with at most one "/". */
  lemma MonthKeySlashes(date: string)
    ensures multiset(MonthKey(date))['/'] == if '/' in date then 1 else 0
  {
    var parts := Split(date, '/');
    var j := if |parts| >= 2 then |parts| - 2 else 0;
    JoinSplit(date, '/');
    JoinCount(parts, '/');
    JoinCount(parts[j..], '/');
  }

  /** A suffix of a day/month/year date that reaches into the day holds both "/". */
  lemma SlashesFromDay(day: string, month: string, year: string, cut: nat)
    ensures '/' !in day && '/' !in month && '/' !in year && cut <= |day| ==>
      multiset((day + "/" + month + "/" + year)[cut..])['/'] == 2
  {
    if '/' !in day && '/' !in month && '/' !in year && cut <= |day| {
      var date := day + "/" + month + "/" + year;
      assert date[cut..] == day[cut..] + "/" + month + "/" + year;
      assert multiset(day[cut..])['/'] == 0 by {
        assert forall x :: x in day[cut..] ==> x in day;
      }
      assert multiset(month)['/'] == 0 && multiset(year)['/'] == 0;
    }
  }

  /** A suffix of a day/month/year date that starts after the first "/" and right after a "/"
      is the year, which holds no "/". */
  lemma SlashesAfterMonth(day: string, month: string, year: string, cut: nat)
    ensures var date := day + "/" + month + "/" + year;
      '/' !in day && '/' !in month && '/' !in year && |day| + 1 < cut <= |date| && date[cut - 1] == '/' ==>
        date[cut..] == year
  {
    var date := day + "/" + month + "/" + year;
    var second := |day| + 1 + |month|;
    if '/' !in day && '/' !in month && '/' !in year && |day| + 1 < cut <= |date| && date[cut - 1] == '/' {
      assert forall i :: |day| < i < second ==> date[i] == month[i - |day| - 1];
      assert forall i :: second < i < |date| ==> date[i] == year[i - second - 1];
      assert cut == second + 1;
      assert date[second + 1..] == year;
    }
  }

  /** A due date in the day/month/year format is keyed by its month and year. */
  lemma MonthKeyOfFullDate(day: string, month: string, year: string)
    requires '/' !in day && '/' !in month && '/' !in year
    ensures MonthKey(day + "/" + month + "/" + year) == month + "/" + year
  {
    var date := day + "/" + month + "/" + year;
    var key := MonthKey(date);
    MonthKeyIsSuffix(date);
    MonthKeySlashes(date);
    assert date[|day|] == '/';
    var cut := |date| - |key|;
    SlashesFromDay(day, month, year, cut);
    SlashesAfterMonth(day, month, year, cut);
    assert multiset(year)['/'] == 0;
    assert cut == |day| + 1;
    assert date[|day| + 1..] == month + "/" + year;
  }
}
