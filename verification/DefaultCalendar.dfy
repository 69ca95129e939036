/** The lazily created default calendar (routes/calendar_routes.py): deterministic ids, tried slot
    by slot. `uuid5` in the fixed namespace is a parameter, assumed injective. */
module DefaultCalendar {
  import opened Collections

  datatype Calendar = Calendar(owner: string, name: string, color: string, source: string)

  type Table = map<string, Calendar>

  const FALLBACK_OWNER := "owner@localhost"

  function DefaultFor(owner: string): Calendar {
    Calendar(owner, "Personal", "#5b8abf", "local")
  }

  ghost predicate Injective(uuid5: string -> string) {
    forall a, b :: uuid5(a) == uuid5(b) ==> a == b
  }

  // ---------- Candidate names ----------

  function Digit(d: nat): char
    requires d < 16
  {
    "0123456789abcdef"[d]
  }

  function Decimal(n: nat): string {
    if n < 10 then [Digit(n)] else Decimal(n / 10) + [Digit(n % 10)]
  }

  /** One character of a JSON string, other scripts left as they are. */
  function JsonChar(c: char): (s: string)
    ensures |s| >= 1
  {
    match c
    case '"' => "\\\""
    case '\\' => "\\\\"
    case '\n' => "\\n"
    case '\r' => "\\r"
    case '\t' => "\\t"
    case '\U{0008}' => "\\b"
    case '\U{000C}' => "\\f"
    case _ => if c < ' ' then "\\u00" + [Digit(c as int / 16), Digit(c as int % 16)] else [c]
  }

  function JsonBody(s: string): (r: string)
    ensures |r| >= |s|
  {
    if s == "" then "" else JsonChar(s[0]) + JsonBody(s[1..])
  }

  /** Slot zero is the owner itself; later slots are the compact JSON pair of owner and index. */
  function CandidateName(owner: string, slot: nat): string {
    if slot == 0 then owner else "[\"" + JsonBody(owner) + "\"," + Decimal(slot) + "]"
  }

  function SlotId(uuid5: string -> string, owner: string, slot: nat): string {
    uuid5(CandidateName(owner, slot))
  }

  lemma {:induction false} DecimalIsInjective(a: nat, b: nat)
    requires Decimal(a) == Decimal(b)
    ensures a == b
  {
    DigitsDiffer(a % 10, b % 10);
    var s := Decimal(a);
    assert s[|s| - 1] == Digit(a % 10) == Digit(b % 10);
    if a >= 10 && b >= 10 {
      assert s[..|s| - 1] == Decimal(a / 10) == Decimal(b / 10);
      DecimalIsInjective(a / 10, b / 10);
    } else {
      DecimalLength(a);
      DecimalLength(b);
    }
  }

  lemma DigitsDiffer(a: nat, b: nat)
    requires a < 10 && b < 10
    ensures Digit(a) == Digit(b) ==> a == b
  {
  }

  lemma {:induction false} DecimalLength(n: nat)
    ensures |Decimal(n)| >= 1
    ensures |Decimal(n)| == 1 <==> n < 10
  {
    if n >= 10 { DecimalLength(n / 10); }
  }

  /** An owner's candidate names are pairwise different. */
  lemma CandidateNamesDiffer(owner: string, a: nat, b: nat)
    requires a != b
    ensures CandidateName(owner, a) != CandidateName(owner, b)
  {
    if a != 0 && b != 0 {
      var prefix := "[\"" + JsonBody(owner) + "\",";
      var na, nb := CandidateName(owner, a), CandidateName(owner, b);
      assert na[|prefix|..|na| - 1] == Decimal(a) && nb[|prefix|..|nb| - 1] == Decimal(b);
      if na == nb {
        DecimalIsInjective(a, b);
      }
    }
  }

  lemma SlotsDiffer(uuid5: string -> string, owner: string, a: nat, b: nat)
    requires Injective(uuid5) && a != b
    ensures SlotId(uuid5, owner, a) != SlotId(uuid5, owner, b)
  {
    CandidateNamesDiffer(owner, a, b);
  }

  // ---------- The first free slot ----------

  ghost predicate FirstFree(rows: Table, uuid5: string -> string, owner: string, k: nat) {
    && SlotId(uuid5, owner, k) !in rows
    && forall i :: 0 <= i < k ==> SlotId(uuid5, owner, i) in rows
  }

  function SlotsBelow(uuid5: string -> string, owner: string, k: nat): set<string> {
    if k == 0 then {} else SlotsBelow(uuid5, owner, k - 1) + {SlotId(uuid5, owner, k - 1)}
  }

  lemma {:induction false} SlotsAboveAreFresh(uuid5: string -> string, owner: string, k: nat, i: nat)
    requires Injective(uuid5) && i >= k
    ensures SlotId(uuid5, owner, i) !in SlotsBelow(uuid5, owner, k)
  {
    if k > 0 {
      SlotsAboveAreFresh(uuid5, owner, k - 1, i);
      SlotsDiffer(uuid5, owner, i, k - 1);
    }
  }

  lemma {:induction false} SlotsBelowCount(rows: Table, uuid5: string -> string, owner: string, k: nat)
    requires Injective(uuid5) && forall i :: 0 <= i < k ==> SlotId(uuid5, owner, i) in rows
    ensures |SlotsBelow(uuid5, owner, k)| == k && SlotsBelow(uuid5, owner, k) <= rows.Keys
  {
    if k > 0 {
      SlotsBelowCount(rows, uuid5, owner, k - 1);
      SlotsAboveAreFresh(uuid5, owner, k - 1, k - 1);
    }
  }

  lemma {:induction false} LeastFree(rows: Table, uuid5: string -> string, owner: string, n: nat) returns (k: nat)
    requires SlotId(uuid5, owner, n) !in rows
    ensures FirstFree(rows, uuid5, owner, k)
    decreases n
  {
    if i :| 0 <= i < n && SlotId(uuid5, owner, i) !in rows {
      k := LeastFree(rows, uuid5, owner, i);
    } else {
      k := n;
    }
  }

  /** A finite table cannot hold every slot. */
  lemma {:induction false} SomeSlotIsFree(rows: Table, uuid5: string -> string, owner: string) returns (k: nat)
    requires Injective(uuid5)
    ensures FirstFree(rows, uuid5, owner, k)
  {
    var size := |rows| + 1;
    if forall i :: 0 <= i < size ==> SlotId(uuid5, owner, i) in rows {
      SlotsBelowCount(rows, uuid5, owner, size);
      SubsetCount(SlotsBelow(uuid5, owner, size), rows.Keys);
    }
    var n: nat :| n < size && SlotId(uuid5, owner, n) !in rows;
    k := LeastFree(rows, uuid5, owner, n);
  }

  // ---------- One writer at a time ----------

  class CalendarStore {
    var rows: Table

    constructor (rows: Table)
      ensures this.rows == rows
    {
      this.rows := rows;
    }

    /** The SQLite path: the writer reservation makes the whole call one critical section. */
    method EnsureDefaultCalendar(uuid5: string -> string, requested: string) returns (id: string)
      requires Injective(uuid5)
      modifies this
      ensures id in rows && rows[id].owner == if requested == "" then "owner@localhost" else requested
      ensures (exists c :: c in old(rows) && old(rows)[c].owner == rows[id].owner) ==> rows == old(rows)
      ensures (forall c :: c in old(rows) ==> old(rows)[c].owner != rows[id].owner) ==>
                exists k: nat ::
                  && FirstFree(old(rows), uuid5, rows[id].owner, k) && id == SlotId(uuid5, rows[id].owner, k)
                  && rows == old(rows)[id := Calendar(rows[id].owner, "Personal", "#5b8abf", "local")]
    {
      var owner := if requested == "" then FALLBACK_OWNER else requested;
      var mine := set c | c in rows && rows[c].owner == owner;
      if mine != {} {
        id :| id in mine;
        return;
      }
      assert forall c :: c in rows ==> c in mine || rows[c].owner != owner;
      id := ClaimSlot(uuid5, owner);
    }

    /** Slot after slot: an occupant of the owner is returned, anyone else's is passed by, a free one is taken. */
    method ClaimSlot(uuid5: string -> string, owner: string) returns (id: string)
      requires Injective(uuid5)
      modifies this
      ensures id in rows && rows[id].owner == owner
      ensures rows != old(rows) ==>
                exists k: nat ::
                  && FirstFree(old(rows), uuid5, owner, k) && id == SlotId(uuid5, owner, k)
                  && rows == old(rows)[id := DefaultFor(owner)]
    {
      var slot := 0;
      ghost var free := SomeSlotIsFree(rows, uuid5, owner);
      while true
        invariant rows == old(rows) && slot <= free
        invariant forall i :: 0 <= i < slot ==> SlotId(uuid5, owner, i) in rows
        decreases free - slot
      {
        id := SlotId(uuid5, owner, slot);
        if id in rows {
          if rows[id].owner == owner {
            return;
          }
          slot := slot + 1;
        } else {
          assert FirstFree(rows, uuid5, owner, slot);
          rows := rows[id := DefaultFor(owner)];
          return;
        }
      }
    }
  }
}
