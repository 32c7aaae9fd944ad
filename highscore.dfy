/** The high-score table: a dictionary from player name to time in seconds, kept in
    a file of `name:time` lines. The file is a sequence of lines here; reading or
    writing it is left to the caller. */
module HighScores {
  import opened Wrappers

  /** A 32-bit signed integer, the type of a score. */
  newtype int32 = x: int | -0x8000_0000 <= x < 0x8000_0000

  /** Why a file of scores could not be loaded. */
  datatype LoadError =
    | MissingScore(line: string)   // a line with no ':' has no second part
    | BadNumber(text: string)      // the score text is not an integer
    | OutOfRange(text: string)     // the score does not fit in 32 bits

  // ---------------------------------------------------------------------------
  // Integers as text: formatting and parsing (sign, decimal digits, white space)
  // ---------------------------------------------------------------------------

  predicate IsDigit(c: char) {
    '0' <= c <= '9'
  }

  predicate AllDigits(s: string) {
    forall k | 0 <= k < |s| :: IsDigit(s[k])
  }

  /** The white space an integer may be surrounded by: tab, line feed, vertical tab,
      form feed, carriage return and space. */
  predicate IsWhite(c: char) {
    c == ' ' || '\t' <= c <= '\r'
  }

  /** The value of a string of decimal digits, most significant first. */
  function DigitsValue(s: string): nat
    requires AllDigits(s)
  {
    if s == [] then 0
    else DigitsValue(s[..|s| - 1]) * 10 + (s[|s| - 1] as int - '0' as int)
  }

  /** The decimal digits of n, without leading zeros. */
  function Digits(n: nat): string {
    if n < 10 then [('0' as int + n) as char]
    else Digits(n / 10) + [('0' as int + n % 10) as char]
  }

  /** n in decimal, with a leading '-' when negative. */
  function FormatInt(n: int): string {
    if n < 0 then "-" + Digits(-n) else Digits(n)
  }

  /** s without its leading white space. */
  function TrimStart(s: string): string {
    if s != [] && IsWhite(s[0]) then TrimStart(s[1..]) else s
  }

  /** s without its trailing white space. */
  function TrimEnd(s: string): string {
    if s != [] && IsWhite(s[|s| - 1]) then TrimEnd(s[..|s| - 1]) else s
  }

  /** Parses an integer as int.Parse does with its default style: optional white space,
      an optional '+' or '-', one or more decimal digits, optional white space; a value
      outside the 32-bit range is an error of its own. */
  function ParseInt(s: string): (r: Result<int32, LoadError>)
    ensures r.Failure? ==> r.error == BadNumber(s) || r.error == OutOfRange(s)
  {
    var t := TrimEnd(TrimStart(s));
    var negative := |t| > 0 && t[0] == '-';
    var digits := if |t| > 0 && (t[0] == '-' || t[0] == '+') then t[1..] else t;
    if digits == [] || !AllDigits(digits) then Failure(BadNumber(s))
    else
      var magnitude: int := DigitsValue(digits);
      var value := if negative then -magnitude else magnitude;
      if -0x8000_0000 <= value < 0x8000_0000 then Success(value as int32) else Failure(OutOfRange(s))
  }

  /** The digits of n are digits, and read back as n. */
  lemma {:induction false} DigitsRoundTrip(n: nat)
    ensures |Digits(n)| > 0 && AllDigits(Digits(n))
    ensures DigitsValue(Digits(n)) == n
  {
    if n >= 10 {
      DigitsRoundTrip(n / 10);
      var s := Digits(n);
      assert s[..|s| - 1] == Digits(n / 10);
    }
  }

  /** Every 32-bit integer survives formatting and parsing. */
  lemma FormatParseRoundTrip(n: int32)
    ensures ParseInt(FormatInt(n as int)) == Success(n)
  {
    var s := FormatInt(n as int);
    if n < 0 {
      DigitsRoundTrip(-(n as int));
      assert s[1..] == Digits(-(n as int));
    } else {
      DigitsRoundTrip(n as int);
    }
    assert TrimStart(s) == s;
    assert TrimEnd(s) == s;
  }

  // ---------------------------------------------------------------------------
  // Splitting a line at a separator
  // ---------------------------------------------------------------------------

  /** The index of the first occurrence of c in s. */
  function IndexOf(s: string, c: char): (k: nat)
    requires c in s
    ensures k < |s| && s[k] == c
    ensures forall j | 0 <= j < k :: s[j] != c
  {
    if s[0] == c then 0 else 1 + IndexOf(s[1..], c)
  }

  /** The parts of s between occurrences of sep, as string.Split(char) gives them;
      there is always at least one. */
  function Split(s: string, sep: char): (parts: seq<string>)
    ensures |parts| >= 1
    ensures sep in s <==> |parts| >= 2
    ensures sep in s ==> parts[0] == s[..IndexOf(s, sep)]
    ensures sep !in s ==> parts == [s]
    decreases |s|
  {
    if sep !in s then [s]
    else
      var k := IndexOf(s, sep);
      [s[..k]] + Split(s[k + 1..], sep)
  }

  /** The parts joined again with sep between them. */
  function Join(parts: seq<string>, sep: char): string
    requires |parts| >= 1
  {
    if |parts| == 1 then parts[0] else parts[0] + [sep] + Join(parts[1..], sep)
  }

  /** Splitting loses nothing: joining the parts gives the string back. */
  lemma {:induction false} SplitJoin(s: string, sep: char)
    ensures Join(Split(s, sep), sep) == s
    decreases |s|
  {
    if sep in s {
      var k := IndexOf(s, sep);
      var rest := s[k + 1..];
      SplitJoin(rest, sep);
      JoinCons(s[..k], Split(rest, sep), sep);
      assert s == s[..k] + [sep] + rest;
    }
  }

  /** Joining a part in front of at least one more puts sep between them. */
  lemma JoinCons(head: string, tail: seq<string>, sep: char)
    requires |tail| >= 1
    ensures Join([head] + tail, sep) == head + [sep] + Join(tail, sep)
  {
    assert ([head] + tail)[1..] == tail;
  }

  /** Two separator-free strings joined by sep split back into those two. */
  lemma SplitTwo(a: string, b: string, sep: char)
    requires sep !in a && sep !in b
    ensures Split(a + [sep] + b, sep) == [a, b]
  {
    var s := a + [sep] + b;
    assert sep in s by { assert s[|a|] == sep; }
    var k := IndexOf(s, sep);
    assert k == |a|;
    assert s[..k] == a && s[k + 1..] == b;
  }

  // ---------------------------------------------------------------------------
  // One line of the file
  // ---------------------------------------------------------------------------

  /** The line SaveScores writes for one entry. */
  function FormatLine(name: string, score: int32): (line: string) {
    name + ":" + FormatInt(score as int)
  }

  /** A line starts with its name, and for a name without ':' the first ':' of the
      line is the one right after the name. */
  lemma FormatLineShape(name: string, score: int32)
    ensures |FormatLine(name, score)| > |name| && FormatLine(name, score)[..|name|] == name
    ensures ':' !in name ==> ':' in FormatLine(name, score) && IndexOf(FormatLine(name, score), ':') == |name|
  {
    var line := FormatLine(name, score);
    assert line[..|name|] == name && line[|name|] == ':';
  }

  /** The entry LoadScores reads from one line: the text before the first ':' is the
      name and the text after it, up to a second ':' if any, is the score. */
  function ParseLine(line: string): (r: Result<(string, int32), LoadError>)
    ensures ':' !in line <==> r == Failure(MissingScore(line))
    ensures r.Success? ==> ':' in line && r.value.0 == line[..IndexOf(line, ':')]
  {
    var parts := Split(line, ':');
    if |parts| < 2 then Failure(MissingScore(line))
    else
      match ParseInt(parts[1])
      case Failure(e) => Failure(e)
      case Success(score) => Success((parts[0], score))
  }

  /** A line written for a name without ':' reads back as the same entry. */
  lemma LineRoundTrip(name: string, score: int32)
    requires ':' !in name
    ensures ParseLine(FormatLine(name, score)) == Success((name, score))
  {
    var text := FormatInt(score as int);
    assert ':' !in text by {
      if score < 0 { DigitsRoundTrip(-(score as int)); } else { DigitsRoundTrip(score as int); }
      assert forall k | 0 <= k < |text| :: text[k] == '-' || IsDigit(text[k]) by {
        if score < 0 {
          forall k | 1 <= k < |text| ensures IsDigit(text[k]) {
            assert text[k] == Digits(-(score as int))[k - 1];
          }
        }
      }
    }
    assert FormatLine(name, score) == name + [':'] + text;
    SplitTwo(name, text, ':');
    FormatParseRoundTrip(score);
  }

  // ---------------------------------------------------------------------------
  // The table: entries and their enumeration order
  // ---------------------------------------------------------------------------

  /** A dictionary's contents: the score of each name, and the order the dictionary
      enumerates its names in (insertion order). */
  datatype Table = Table(scores: map<string, int32>, order: seq<string>)

  /** The order lists each name of the dictionary exactly once. */
  ghost predicate Wellformed(t: Table) {
    && (forall k, m | 0 <= k < m < |t.order| :: t.order[k] != t.order[m])
    && (forall name :: name in t.scores <==> name in t.order)
    && |t.order| == |t.scores|
  }

  /** `scores[name] = score`: the entry is set, and a new name is enumerated last. */
  function Put(t: Table, name: string, score: int32): (r: Table)
    ensures r.scores.Keys == t.scores.Keys + {name} && r.scores[name] == score
    ensures t.order <= r.order
  {
    Table(t.scores[name := score], if name in t.scores then t.order else t.order + [name])
  }

  /** Putting an entry keeps the table well formed, sets that one entry, even over a
      better score, and leaves every other entry as it was. */
  lemma PutEntry(t: Table, name: string, score: int32)
    requires Wellformed(t)
    ensures Wellformed(Put(t, name, score))
    ensures Put(t, name, score).scores[name] == score
    ensures forall other | other != name :: other in Put(t, name, score).scores <==> other in t.scores
    ensures forall other | other != name && other in t.scores :: Put(t, name, score).scores[other] == t.scores[other]
  {
    var u := Put(t, name, score);
    if name !in t.scores {
      forall k, m | 0 <= k < m < |u.order| ensures u.order[k] != u.order[m] {
        if m == |t.order| {
          assert u.order[k] == t.order[k] && t.order[k] in t.order;
        } else {
          assert u.order[k] == t.order[k] && u.order[m] == t.order[m];
        }
      }
    }
  }

  /** The lines SaveScores writes, one per entry in enumeration order. */
  function Lines(scores: map<string, int32>, order: seq<string>): (lines: seq<string>)
    requires forall name | name in order :: name in scores
    ensures |lines| == |order|
  {
    if order == [] then []
    else [FormatLine(order[0], scores[order[0]])] + Lines(scores, order[1..])
  }

  /** One line per entry: line k is the line of the k-th name of the order. */
  lemma LinesEntries(scores: map<string, int32>, order: seq<string>)
    requires forall name | name in order :: name in scores
    ensures |Lines(scores, order)| == |order|
    ensures forall k | 0 <= k < |order| :: Lines(scores, order)[k] == FormatLine(order[k], scores[order[k]])
  {
    forall k | 0 <= k < |order| ensures Lines(scores, order)[k] == FormatLine(order[k], scores[order[k]]) {
      LineAt(scores, order, k);
    }
  }

  /** Line k is the line of the k-th name: it is line k - 1 of the lines after the first. */
  lemma {:induction false} LineAt(scores: map<string, int32>, order: seq<string>, k: nat)
    requires forall name | name in order :: name in scores
    requires k < |order|
    ensures Lines(scores, order)[k] == FormatLine(order[k], scores[order[k]])
    decreases k
  {
    if k > 0 {
      var rest := Lines(scores, order[1..]);
      assert Lines(scores, order)[k] == rest[k - 1];
      LineAt(scores, order[1..], k - 1);
      assert order[1..][k - 1] == order[k];
    }
  }

  /** What LoadScores does with the lines of a file, starting from table t: each line's
      entry is put in turn, so a later line for the same name wins; at the first line
      that does not parse it stops, keeping the entries put so far. */
  function Load(t: Table, lines: seq<string>): (r: (Table, Outcome<LoadError>))
    ensures t.scores.Keys <= r.0.scores.Keys && t.order <= r.0.order
    decreases |lines|
  {
    if lines == [] then (t, Pass)
    else match ParseLine(lines[0])
      case Failure(e) => (t, Fail(e))
      case Success(entry) => Load(Put(t, entry.0, entry.1), lines[1..])
  }

  /** Of two lines for the same name, the later one's score is kept. */
  lemma LaterLineWins(t: Table, first: string, second: string, name: string, a: int32, b: int32)
    requires ParseLine(first) == Success((name, a)) && ParseLine(second) == Success((name, b))
    ensures Load(t, [first, second]).1 == Pass
    ensures Load(t, [first, second]).0.scores == t.scores[name := b]
  {
    var u := Put(t, name, a);
    LoadNext(t, [first, second], name, a);
    assert [first, second][1..] == [second];
    LoadNext(u, [second], name, b);
    assert [second][1..] == [];
  }

  /** Loading the lines saved for a table whose names hold no ':' rebuilds the table,
      entries and enumeration order alike. */
  lemma SaveLoadRoundTrip(t: Table)
    requires Wellformed(t)
    requires forall name | name in t.scores :: ':' !in name && '\n' !in name && '\r' !in name
    ensures Load(Table(map[], []), Lines(t.scores, t.order)) == (t, Pass)
  {
    assert t.order[..0] == [] && t.order[0..] == t.order;
    assert Restrict(t, t.order[..0]) == Table(map[], []);
    LoadRest(t, 0);
  }

  /** The part of table t on the names of `prefix`, in that order. */
  function Restrict(t: Table, prefix: seq<string>): (r: Table)
    requires forall name | name in prefix :: name in t.scores
  {
    Table(map name | name in prefix :: t.scores[name], prefix)
  }

  /** Loading the lines of the names after the first i rebuilds t from its part on the
      first i names. */
  lemma {:induction false} LoadRest(t: Table, i: nat)
    requires Wellformed(t) && i <= |t.order|
    requires forall name | name in t.scores :: ':' !in name
    ensures Load(Restrict(t, t.order[..i]), Lines(t.scores, t.order[i..])) == (t, Pass)
    decreases |t.order| - i
  {
    if i == |t.order| {
      assert t.order[..i] == t.order && t.order[i..] == [];
      assert Restrict(t, t.order).scores == t.scores;
    } else {
      var name := t.order[i];
      var score := t.scores[name];
      var lines := Lines(t.scores, t.order[i..]);
      LinesNext(t.scores, t.order, i);
      LineRoundTrip(name, score);
      LoadNext(Restrict(t, t.order[..i]), lines, name, score);
      RestrictNext(t, i);
      LoadRest(t, i + 1);
    }
  }

  /** The lines from the i-th name on start with the i-th name's line. */
  lemma LinesNext(scores: map<string, int32>, order: seq<string>, i: nat)
    requires forall name | name in order :: name in scores
    requires i < |order|
    ensures Lines(scores, order[i..]) != []
    ensures Lines(scores, order[i..])[0] == FormatLine(order[i], scores[order[i]])
    ensures Lines(scores, order[i..])[1..] == Lines(scores, order[i + 1..])
  {
    assert order[i..][0] == order[i] && order[i..][1..] == order[i + 1..];
  }

  /** Loading puts the entry of the first line, then loads the rest. */
  lemma LoadNext(t: Table, lines: seq<string>, name: string, score: int32)
    requires lines != [] && ParseLine(lines[0]) == Success((name, score))
    ensures Load(t, lines) == Load(Put(t, name, score), lines[1..])
  {
  }

  /** Putting the i-th entry extends the part of t on the first i names by one. */
  lemma RestrictNext(t: Table, i: nat)
    requires Wellformed(t) && i < |t.order|
    ensures Put(Restrict(t, t.order[..i]), t.order[i], t.scores[t.order[i]]) == Restrict(t, t.order[..i + 1])
  {
    var name := t.order[i];
    var prefix := t.order[..i];
    FreshName(t, i);
    assert t.order[..i + 1] == prefix + [name];
    RestrictSnoc(t, prefix, name);
  }

  /** The i-th name does not occur among the names before it. */
  lemma FreshName(t: Table, i: nat)
    requires Wellformed(t) && i < |t.order|
    ensures t.order[i] !in t.order[..i]
  {
    forall k | 0 <= k < i ensures t.order[..i][k] != t.order[i] {
      assert t.order[..i][k] == t.order[k];
    }
  }

  /** Restricting to one more, new name is putting that name's entry. */
  lemma RestrictSnoc(t: Table, prefix: seq<string>, name: string)
    requires forall n | n in prefix :: n in t.scores
    requires name in t.scores && name !in prefix
    ensures Put(Restrict(t, prefix), name, t.scores[name]) == Restrict(t, prefix + [name])
  {
    var before := Restrict(t, prefix);
    assert name !in before.scores;
    assert before.scores[name := t.scores[name]] == Restrict(t, prefix + [name]).scores;
  }

  // ---------------------------------------------------------------------------
  // The class
  // ---------------------------------------------------------------------------

  class HighScore {
    /** The dictionary: the score of each name, and the order it enumerates names in. */
    var scores: map<string, int32>
    var order: seq<string>

    function Contents(): Table
      reads this
    {
      Table(scores, order)
    }

    ghost predicate Valid()
      reads this
    {
      Wellformed(Contents())
    }

    /** The empty table the constructor starts from. */
    constructor Empty()
      ensures Valid() && scores == map[] && order == []
    {
      scores := map[];
      order := [];
    }

    /** The constructor: an empty table, then the file's scores, if there is a file.
        A line that does not parse makes construction fail. */
    static method Open(file: Option<seq<string>>) returns (r: Result<HighScore, LoadError>)
      ensures file.None? ==> r.Success? && r.value.scores == map[]
      ensures file.Some? ==> match Load(Table(map[], []), file.value)
        case (t, Pass) => r.Success? && r.value.Contents() == t
        case (_, Fail(e)) => r == Failure(e)
      ensures r.Success? ==> fresh(r.value) && r.value.Valid()
    {
      var table := new HighScore.Empty();
      var outcome := table.LoadScores(file);
      if outcome.Fail? {
        return Failure(outcome.error);
      }
      return Success(table);
    }

    /** Sets the score of name, replacing any earlier one, and saves the table; the
        result is the file's new lines. */
    method AddScore(name: string, timeInSeconds: int32) returns (saved: seq<string>)
      requires Valid()
      modifies this
      ensures Valid() && Contents() == Put(old(Contents()), name, timeInSeconds)
      ensures saved == Lines(scores, order)
    {
      Store(name, timeInSeconds);
      saved := SaveScores();
    }

    /** `Scores[name] = score`. */
    method Store(name: string, score: int32)
      requires Valid()
      modifies this
      ensures Valid() && Contents() == Put(old(Contents()), name, score)
    {
      PutEntry(Contents(), name, score);
      if name !in scores {
        order := order + [name];
      }
      scores := scores[name := score];
    }

    /** Reads the file's lines in turn, putting each line's entry; without a file
        nothing changes. At a line that does not parse it stops with that error. */
    method LoadScores(file: Option<seq<string>>) returns (outcome: Outcome<LoadError>)
      requires Valid()
      modifies this
      ensures Valid()
      ensures file.None? ==> Contents() == old(Contents()) && outcome == Pass
      ensures file.Some? ==> (Contents(), outcome) == Load(old(Contents()), file.value)
    {
      if file.None? {
        return Pass;
      }
      var lines := file.value;
      var i := 0;
      while i < |lines|
        invariant Valid() && 0 <= i <= |lines|
        invariant Load(old(Contents()), lines) == Load(Contents(), lines[i..])
      {
        assert lines[i..][0] == lines[i] && lines[i..][1..] == lines[i + 1..];
        var parsed := ParseLine(lines[i]);
        if parsed.Failure? {
          return Fail(parsed.error);
        }
        var (name, score) := parsed.value;
        Store(name, score);
        i := i + 1;
      }
      return Pass;
    }

    /** The lines of the file: one `name:score` line per entry, in enumeration order. */
    method SaveScores() returns (lines: seq<string>)
      requires Valid()
      ensures lines == Lines(scores, order)
      ensures |lines| == |scores|
    {
      lines := WriteLines(scores, order);
    }
  }

  /** The writing loop of SaveScores, over the dictionary's entries in order. */
  method WriteLines(scores: map<string, int32>, order: seq<string>) returns (lines: seq<string>)
    requires forall name | name in order :: name in scores
    ensures lines == Lines(scores, order)
  {
    ghost var saved := Lines(scores, order);
    lines := [];
    for k := 0 to |order|
      invariant |lines| == k
      invariant forall m | 0 <= m < k :: lines[m] == saved[m]
    {
      LineAt(scores, order, k);
      lines := lines + [FormatLine(order[k], scores[order[k]])];
    }
    assert |lines| == |saved|;
  }
}
