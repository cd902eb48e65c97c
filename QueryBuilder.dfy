/** The filtered SELECTs of the player and schedule services: a fixed base
    query ending in "WHERE 1=1", followed by one " AND <column> = ?" clause
    per active filter, with the filter values as the query arguments in the
    same order. */
module QueryBuilder {

  /** A query argument: a string or an integer value. */
  datatype Arg = Text(s: string) | Number(n: int)

  /** An active filter: the column compared and the value it must equal. */
  datatype Condition = Condition(column: string, arg: Arg)

  /** How many times `c` occurs in `s`. */
  function Count(s: string, c: char): nat {
    if s == [] then 0 else Count(s[..|s| - 1], c) + (if s[|s| - 1] == c then 1 else 0)
  }

  lemma {:induction false} CountAppend(a: string, b: string, c: char)
    ensures Count(a + b, c) == Count(a, c) + Count(b, c)
  {
    if b == [] {
      assert a + b == a;
    } else {
      assert (a + b)[..|a + b| - 1] == a + b[..|b| - 1];
      CountAppend(a, b[..|b| - 1], c);
    }
  }

  lemma {:induction false} CountAbsent(s: string, c: char)
    requires c !in s
    ensures Count(s, c) == 0
  {
    if s != [] {
      assert s[..|s| - 1] + [s[|s| - 1]] == s;
      CountAbsent(s[..|s| - 1], c);
    }
  }

  /** The `?` placeholders of a query. */
  function Placeholders(query: string): nat {
    Count(query, '?')
  }

  /** The clause a filter appends. */
  function Clause(c: Condition): string {
    " AND " + c.column + " = " + "?"
  }

  /** The query with the clauses of `conds` appended, in order. */
  function Where(base: string, conds: seq<Condition>): string {
    if conds == [] then base else Where(base, conds[..|conds| - 1]) + Clause(conds[|conds| - 1])
  }

  /** The query arguments of `conds`, in the order of their clauses. */
  function Args(conds: seq<Condition>): (r: seq<Arg>)
    ensures |r| == |conds|
    ensures forall i :: 0 <= i < |conds| ==> r[i] == conds[i].arg
  {
    seq(|conds|, i requires 0 <= i < |conds| => conds[i].arg)
  }

  /** Each clause adds exactly one placeholder, so a query built from a base
      without placeholders binds exactly as many placeholders as it has
      arguments. */
  lemma {:induction false} WherePlaceholders(base: string, conds: seq<Condition>)
    requires forall c :: c in conds ==> '?' !in c.column
    ensures Placeholders(Where(base, conds)) == Placeholders(base) + |Args(conds)|
  {
    if conds != [] {
      var init := conds[..|conds| - 1];
      var last := conds[|conds| - 1];
      assert forall c :: c in init ==> c in conds;
      WherePlaceholders(base, init);
      assert last in conds;
      CountAbsent(" AND ", '?');
      CountAbsent(last.column, '?');
      CountAbsent(" = ", '?');
      CountAppend(" AND ", last.column, '?');
      CountAppend(" AND " + last.column, " = ", '?');
      CountAppend(" AND " + last.column + " = ", "?", '?');
      CountAppend(Where(base, init), Clause(last), '?');
    }
  }
}
