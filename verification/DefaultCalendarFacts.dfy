/** What the candidate names of an owner read as, and callers of an owner who has a calendar already
    (routes/calendar_routes.py). */
module DefaultCalendarFacts {
  import opened Wrappers
  import opened DefaultCalendar
  import opened DefaultCalendarRuns

  // ---------- Reading a candidate name as JSON ----------

  function DigitValue(c: char): nat {
    if '0' <= c <= '9' then c as int - '0' as int
    else if 'a' <= c <= 'f' then c as int - 'a' as int + 10
    else 0
  }

  /** The character that a one-letter escape stands for, after section 7 of RFC 8259. */
  function Escaped(c: char): Option<char> {
    match c
    case '"' => Some('"')
    case '\\' => Some('\\')
    case 'n' => Some('\n')
    case 'r' => Some('\r')
    case 't' => Some('\t')
    case 'b' => Some('\U{0008}')
    case 'f' => Some('\U{000C}')
    case _ => None
  }

  function Cons(c: char, r: Option<(string, string)>): Option<(string, string)> {
    if r.Some? then Some(([c] + r.value.0, r.value.1)) else None
  }

  /** The text of a string up to its closing quote, and what follows the quote. */
  function ReadString(s: string): Option<(string, string)> {
    if s == "" then None
    else if s[0] == '"' then Some(("", s[1..]))
    else if s[0] != '\\' then Cons(s[0], ReadString(s[1..]))
    else if |s| >= 2 && Escaped(s[1]).Some? then Cons(Escaped(s[1]).value, ReadString(s[2..]))
    else if |s| >= 6 && s[1] == 'u' && s[2] == s[3] == '0' then
      Cons((16 * DigitValue(s[4]) + DigitValue(s[5])) as char, ReadString(s[6..]))
    else None
  }

  lemma DigitReads(d: nat)
    requires d < 16
    ensures DigitValue(Digit(d)) == d && (d < 10 ==> '0' <= Digit(d) <= '9')
    ensures d > 0 ==> Digit(d) != '0'
  {
    var digits := "0123456789abcdef";
    assert forall k :: 0 <= k < 10 ==> digits[k] as int == 48 + k;
    assert forall k :: 10 <= k < 16 ==> digits[k] as int == 87 + k;
  }

  lemma ReadPlain(c: char, rest: string)
    requires c != '"' && c != '\\'
    ensures ReadString([c] + rest) == Cons(c, ReadString(rest))
  {
    assert ([c] + rest)[1..] == rest;
  }

  lemma ReadEscape(c: char, rest: string)
    requires Escaped(c).Some?
    ensures ReadString(['\\', c] + rest) == Cons(Escaped(c).value, ReadString(rest))
  {
    assert (['\\', c] + rest)[2..] == rest;
  }

  lemma ReadCode(c: char, rest: string)
    requires c < ' '
    ensures ReadString("\\u00" + [Digit(c as int / 16), Digit(c as int % 16)] + rest) == Cons(c, ReadString(rest))
  {
    var high, low := c as int / 16, c as int % 16;
    var s := "\\u00" + [Digit(high), Digit(low)] + rest;
    DigitReads(high);
    DigitReads(low);
    assert Escaped('u') == None && s[..6] == ['\\', 'u', '0', '0', Digit(high), Digit(low)] && s[6..] == rest;
    assert 16 * high + low == c as int;
  }

  lemma ShortEscape(c: char) returns (letter: char)
    requires c == '"' || c == '\\' || c == '\n' || c == '\r' || c == '\t' || c == '\U{0008}' || c == '\U{000C}'
    ensures JsonChar(c) == ['\\', letter] && Escaped(letter) == Some(c)
  {
    letter := JsonChar(c)[1];
  }

  lemma ReadChar(c: char, rest: string)
    ensures ReadString(JsonChar(c) + rest) == Cons(c, ReadString(rest))
  {
    if c == '"' || c == '\\' || c == '\n' || c == '\r' || c == '\t' || c == '\U{0008}' || c == '\U{000C}' {
      var letter := ShortEscape(c);
      ReadEscape(letter, rest);
    } else if c < ' ' {
      ReadCode(c, rest);
    } else {
      ReadPlain(c, rest);
    }
  }

  lemma Associate(a: string, b: string, c: string, d: string)
    ensures a + b + c + d == a + (b + c + d)
  {
  }

  lemma {:induction false} ReadBody(text: string, rest: string)
    ensures ReadString(JsonBody(text) + "\"" + rest) == Some((text, rest))
  {
    if text == "" {
      assert ("" + "\"" + rest)[1..] == rest;
    } else {
      ReadBody(text[1..], rest);
      ReadChar(text[0], JsonBody(text[1..]) + "\"" + rest);
      Associate(JsonChar(text[0]), JsonBody(text[1..]), "\"", rest);
      assert text == [text[0]] + text[1..];
    }
  }

  function Number(digits: string): nat {
    if digits == "" then 0 else 10 * Number(digits[..|digits| - 1]) + DigitValue(digits[|digits| - 1])
  }

  lemma NumberOfLonger(digits: string, c: char)
    ensures Number(digits + [c]) == 10 * Number(digits) + DigitValue(c)
  {
    assert (digits + [c])[..|digits|] == digits;
  }

  lemma {:induction false} DecimalReadsBack(n: nat)
    ensures Number(Decimal(n)) == n && Decimal(n) != "" && (n > 0 ==> Decimal(n)[0] != '0')
    ensures forall c :: c in Decimal(n) ==> '0' <= c <= '9'
  {
    DigitReads(n % 10);
    if n < 10 {
      assert Decimal(n) == [Digit(n)] && [Digit(n)][..0] == "";
    } else {
      DecimalReadsBack(n / 10);
      NumberOfLonger(Decimal(n / 10), Digit(n % 10));
    }
  }

  lemma Regroup(open: string, text: string, quote: string, comma: string, digits: string, close: string)
    ensures open + text + (quote + comma) + digits + close == open + (text + quote + (comma + digits + close))
  {
  }

  lemma NameSplits(owner: string, slot: nat)
    requires slot > 0
    ensures CandidateName(owner, slot) == "[\"" + (JsonBody(owner) + "\"" + ("," + Decimal(slot) + "]"))
  {
    Regroup("[\"", JsonBody(owner), "\"", ",", Decimal(slot), "]");
    assert "\"" + "," == "\",";
  }

  lemma DropFront(front: string, rest: string)
    ensures (front + rest)[|front|..] == rest && front <= front + rest
  {
  }

  lemma PairReadsBack(owner: string, slot: nat)
    requires slot > 0
    ensures "[\"" <= CandidateName(owner, slot)
    ensures ReadString(CandidateName(owner, slot)[2..]) == Some((owner, "," + Decimal(slot) + "]"))
  {
    var tail := "," + Decimal(slot) + "]";
    ReadBody(owner, tail);
    NameSplits(owner, slot);
    DropFront("[\"", JsonBody(owner) + "\"" + tail);
  }

  /** The first candidate name is the owner; each later one is the compact pair of the owner, as a
      string, and the slot, in decimal. */
  lemma CandidateReadsBack(owner: string, slot: nat) returns (digits: string)
    ensures slot == 0 ==> CandidateName(owner, slot) == owner
    ensures slot > 0 ==>
              && "[\"" <= CandidateName(owner, slot)
              && ReadString(CandidateName(owner, slot)[2..]) == Some((owner, "," + digits + "]"))
              && Number(digits) == slot && (forall c :: c in digits ==> '0' <= c <= '9')
              && digits != "" && digits[0] != '0'
  {
    digits := Decimal(slot);
    if slot > 0 {
      DecimalReadsBack(slot);
      PairReadsBack(owner, slot);
    }
  }

  // ---------- An owner with a calendar ----------

  /** Every caller is given a calendar the owner had at the start; nobody inserts or locks anything. */
  ghost predicate Settled(s: State, rows: map<string, Stored>, owner: string) {
    && s.rows == rows && s.locks == map[]
    && (forall id :: id in rows ==> rows[id].writer == None)
    && (exists id :: id in rows && rows[id].calendar.owner == owner)
    && forall c :: c in s.callers ==> c == Begin || c == RolledBack || Served(c, rows, owner)
  }

  predicate Served(c: Caller, rows: map<string, Stored>, owner: string) {
    (c.Returned? || c.Committed?) && c.id in rows && rows[c.id].calendar.owner == owner
  }

  lemma StepSettles(s: State, rows: map<string, Stored>, uuid5: string -> string, owner: string, e: Event)
    requires Settled(s, rows, owner) && Enabled(s, uuid5, owner, e)
    ensures Settled(Next(s, uuid5, owner, e), rows, owner)
  {
    var n, i := Next(s, uuid5, owner, e), e.caller;
    var id :| id in rows && rows[id].calendar.owner == owner;
    assert Visible(s, id, owner) && s.callers[i] in s.callers;
    forall c | c in n.callers ensures c == n.callers[i] || c in s.callers {
    }
    assert Published(rows, i) == rows && Withdrawn(rows, i) == rows;
  }

  lemma {:induction false} RunSettles(s: State, rows: map<string, Stored>, uuid5: string -> string,
          owner: string, events: seq<Event>)
    requires Settled(s, rows, owner) && IsRun(s, uuid5, owner, events)
    ensures Settled(After(s, uuid5, owner, events), rows, owner)
    decreases events
  {
    if events != [] {
      StepSettles(s, rows, uuid5, owner, events[0]);
      RunSettles(Next(s, uuid5, owner, events[0]), rows, uuid5, owner, events[1..]);
    }
  }

  /** When the owner has a calendar and no call is under way, then in every interleaving of any number
      of callers each that has looked is given one of the owner's calendars, and no row is added,
      changed or locked. */
  lemma ExistingCalendarIsUsed(s: State, uuid5: string -> string, owner: string, events: seq<Event>)
    requires (forall id :: id in s.rows ==> s.rows[id].writer == None) && s.locks == map[]
    requires exists id :: id in s.rows && s.rows[id].calendar.owner == owner
    requires (forall c :: c in s.callers ==> c == Begin) && IsRun(s, uuid5, owner, events)
    ensures var end := After(s, uuid5, owner, events);
            && end.rows == s.rows && end.locks == map[]
            && forall c :: c in end.callers ==>
                 || c == Begin || c == RolledBack
                 || ((c.Returned? || c.Committed?) && c.id in s.rows && s.rows[c.id].calendar.owner == owner)
  {
    RunSettles(s, s.rows, uuid5, owner, events);
  }
}
