/**
 The course table of the law-degree progress page and the one value the `App`
 component derives from it: `sections`, the distinct curriculum cycles of the
 table in the order in which they first appear.
 */
module App {
  import opened Wrappers
  import opened JsArray

  /** The specialization tracks a course may be tagged with. */
  datatype Orientacion =
    | DerechoEmpresarial
    | DerechoInternacionalPublico
    | DerechoNotarialRegistralEInmobiliario
    | DerechoPenal
    | DerechoPrivado
    | DerechoPublicoAdministrativo
    | DerechoTributario
    | DerechoDeTrabajoYDeSeguridadSocial

  /** The cycle of the curriculum a course belongs to. */
  datatype Ciclo = CBC | CPC | CPO

  /** One row of the course table. `null` fields are `None`. */
  datatype Materia = Materia(
    materia: string,
    horasSemana: int,
    horasTotales: int,
    ciclo: Ciclo,
    min: Option<int>,
    max: Option<int>,
    orientacion: Option<Orientacion>)

  /** The string literal each cycle is in the source: one of the three
      literals of the `ciclo` union type. */
  function Label(c: Ciclo): (r: string)
    ensures r in {"CBC", "CPC", "CPO"}
  {
    match c
    case CBC => "CBC"
    case CPC => "CPC"
    case CPO => "CPO"
  }

  /** Distinct cycles have distinct literals, so comparing cycles is comparing
      their strings with `===`. */
  lemma LabelInjective(a: Ciclo, b: Ciclo)
    ensures Label(a) == Label(b) ==> a == b
  {
  }

  predicate NoDuplicates<T(==)>(s: seq<T>) {
    forall i, j :: 0 <= i < j < |s| ==> s[i] != s[j]
  }

  /** `r` can be obtained from `s` by deleting elements. */
  predicate IsSubsequence<T(==)>(r: seq<T>, s: seq<T>)
    decreases |s|
  {
    if |r| == 0 then true
    else if |s| == 0 then false
    else (r[|r| - 1] == s[|s| - 1] && IsSubsequence(r[..|r| - 1], s[..|s| - 1]))
         || IsSubsequence(r, s[..|s| - 1])
  }

  /** The filter callback of the sections derivation:
      `(value, index, self) => self.indexOf(value) === index`. */
  predicate IsFirstOccurrence<T(==)>(value: T, index: nat, self: seq<T>): (b: bool)
    ensures b <==> index < |self| && self[index] == value
                   && forall j :: 0 <= j < index ==> self[j] != value
  {
    IndexOf(self, value) == index
  }

  /** Keeps `s[i]` exactly when `i` is the first index of that value. */
  function Dedup<T(==)>(s: seq<T>): (r: seq<T>)
    ensures |r| <= |s|
  {
    Filter(s, IsFirstOccurrence)
  }

  /** The cycle column of the table: `materias.map(({ ciclo }) => ciclo)`. */
  function Ciclos(materias: seq<Materia>): (r: seq<Ciclo>)
    ensures |r| == |materias|
    ensures forall k :: 0 <= k < |materias| ==> r[k] == materias[k].ciclo
  {
    Map(materias, (m: Materia) => m.ciclo)
  }

  /** The `sections` constant of `App`. */
  function Sections(materias: seq<Materia>): (r: seq<Ciclo>)
    ensures NoDuplicates(r)
    ensures forall c :: c in r <==> exists k :: 0 <= k < |materias| && materias[k].ciclo == c
    ensures forall i, j :: 0 <= i < j < |r| ==>
              0 <= IndexOf(Ciclos(materias), r[i]) < IndexOf(Ciclos(materias), r[j])
    ensures IsSubsequence(r, Ciclos(materias))
    ensures |r| <= |materias| && |r| <= 3
    ensures materias == [] ==> r == []
  {
    var cs := Ciclos(materias);
    DedupMembers(cs);
    DedupNoDuplicates(cs);
    DedupFirstSeenOrder(cs);
    DedupSubsequence(cs);
    DistinctCiclosAtMostThree(Dedup(cs));
    CiclosMembers(materias);
    Dedup(cs)
  }

  /** A cycle is in the cycle column exactly when some course has it. */
  lemma CiclosMembers(materias: seq<Materia>)
    ensures forall c :: c in Ciclos(materias) <==> exists k :: 0 <= k < |materias| && materias[k].ciclo == c
  {
  }

  // ---------------------------------------------------------------------------
  // The filter step, one element at a time

  /** Deduplicating `s + [x]` gives `Dedup(s)`, plus `x` when `x` is new. */
  lemma {:induction false} DedupSnoc<T>(s: seq<T>, x: T)
    ensures Dedup(s + [x]) == if x in s then Dedup(s) else Dedup(s) + [x]
  {
    var t := s + [x];
    forall j | 0 <= j < |s|
      ensures IsFirstOccurrence(s[j], j, t) == IsFirstOccurrence(s[j], j, s)
    {
      IndexOfSnoc(s, x, s[j]);
    }
    IndexOfSnoc(s, x, x);
    FilterSnoc(s, x, IsFirstOccurrence);
  }

  lemma DedupEmpty<T>()
    ensures Dedup<T>([]) == []
  {
  }

  /** No value is lost and none is invented. */
  lemma {:induction false} DedupMembers<T>(s: seq<T>)
    ensures forall x :: x in Dedup(s) <==> x in s
  {
    if |s| > 0 {
      var p, x := s[..|s| - 1], s[|s| - 1];
      assert s == p + [x];
      DedupSnoc(p, x);
      DedupMembers(p);
    }
  }

  /** Each value is kept only once. */
  lemma {:induction false} DedupNoDuplicates<T>(s: seq<T>)
    ensures NoDuplicates(Dedup(s))
  {
    if |s| > 0 {
      var p, x := s[..|s| - 1], s[|s| - 1];
      assert s == p + [x];
      DedupSnoc(p, x);
      DedupMembers(p);
      DedupNoDuplicates(p);
    }
  }

  /** The values come out in the order of their first occurrence in `s`. */
  lemma {:induction false} DedupFirstSeenOrder<T>(s: seq<T>)
    ensures forall i, j :: 0 <= i < j < |Dedup(s)| ==>
              0 <= IndexOf(s, Dedup(s)[i]) < IndexOf(s, Dedup(s)[j])
  {
    if |s| > 0 {
      var p, x := s[..|s| - 1], s[|s| - 1];
      assert s == p + [x];
      DedupSnoc(p, x);
      DedupMembers(p);
      DedupFirstSeenOrder(p);
      var d := Dedup(p);
      forall y | y in d
        ensures 0 <= IndexOf(s, y) == IndexOf(p, y) < |p|
      {
        IndexOfSnoc(p, x, y);
      }
      IndexOfSnoc(p, x, x);
      forall i, j | 0 <= i < j < |Dedup(s)|
        ensures 0 <= IndexOf(s, Dedup(s)[i]) < IndexOf(s, Dedup(s)[j])
      {
        assert Dedup(s)[i] == d[i] && d[i] in d;
        assert 0 <= IndexOf(s, d[i]) == IndexOf(p, d[i]) < |p|;
        if j < |d| {
          assert Dedup(s)[j] == d[j] && d[j] in d;
          assert IndexOf(p, d[i]) < IndexOf(p, d[j]);
          assert IndexOf(s, d[j]) == IndexOf(p, d[j]);
        } else {
          assert Dedup(s)[j] == x;
          assert IndexOf(s, x) == |p|;
        }
      }
    } else {
      assert |Dedup(s)| == 0;
    }
  }

  /** The result is `s` with some elements deleted. */
  lemma {:induction false} DedupSubsequence<T>(s: seq<T>)
    ensures IsSubsequence(Dedup(s), s)
  {
    if |s| > 0 {
      var p, x := s[..|s| - 1], s[|s| - 1];
      assert s == p + [x];
      DedupSnoc(p, x);
      DedupSubsequence(p);
      var r := Dedup(s);
      if x in p {
        assert r == Dedup(p);
      } else {
        assert r[..|r| - 1] == Dedup(p);
      }
    }
  }

  /** A sequence without repeated values passes the filter unchanged. */
  lemma {:induction false} DedupOfDistinct<T>(s: seq<T>)
    requires NoDuplicates(s)
    ensures Dedup(s) == s
  {
    if |s| > 0 {
      var p, x := s[..|s| - 1], s[|s| - 1];
      assert s == p + [x];
      assert x !in p by {
        forall k | 0 <= k < |p| ensures p[k] != x {
          assert s[k] == p[k];
        }
      }
      DedupSnoc(p, x);
      DedupOfDistinct(p);
    }
  }

  /** Removing duplicates a second time changes nothing. */
  lemma DedupIdempotent<T>(s: seq<T>)
    ensures Dedup(Dedup(s)) == Dedup(s)
  {
    DedupNoDuplicates(s);
    DedupOfDistinct(Dedup(s));
  }

  // ---------------------------------------------------------------------------
  // An independent definition: scan left to right, appending unseen values

  function KeepUnseen<T(==)>(seen: seq<T>, rest: seq<T>): seq<T>
    decreases |rest|
  {
    if |rest| == 0 then seen
    else KeepUnseen(if rest[0] in seen then seen else seen + [rest[0]], rest[1..])
  }

  lemma {:induction false} KeepUnseenFrom<T>(p: seq<T>, rest: seq<T>)
    ensures KeepUnseen(Dedup(p), rest) == Dedup(p + rest)
    decreases |rest|
  {
    if |rest| == 0 {
      assert p + rest == p;
    } else {
      var y := rest[0];
      DedupMembers(p);
      DedupSnoc(p, y);
      assert p + rest == (p + [y]) + rest[1..];
      KeepUnseenFrom(p + [y], rest[1..]);
    }
  }

  /** The filter over `indexOf` computes the same sequence as the scan. */
  lemma DedupIsKeepUnseen<T>(s: seq<T>)
    ensures Dedup(s) == KeepUnseen([], s)
  {
    KeepUnseenFrom([], s);
    assert [] + s == s;
  }

  // ---------------------------------------------------------------------------
  // Cycles as strings

  /** Deduplicating through an injective function is deduplicating first. */
  lemma {:induction false} DedupMap<T, U>(s: seq<T>, f: T -> U)
    requires forall a, b :: f(a) == f(b) ==> a == b
    ensures Dedup(Map(s, f)) == Map(Dedup(s), f)
  {
    if |s| > 0 {
      var p, x := s[..|s| - 1], s[|s| - 1];
      assert s == p + [x];
      MapSnoc(p, x, f);
      DedupSnoc(p, x);
      DedupSnoc(Map(p, f), f(x));
      DedupMap(p, f);
      MapSnoc(Dedup(p), x, f);
      assert f(x) in Map(p, f) <==> x in p by {
        if x in p {
          var k :| 0 <= k < |p| && p[k] == x;
          assert Map(p, f)[k] == f(x);
        }
      }
    }
  }

  /** Running the derivation on the cycles' string literals, as JavaScript
      does, gives the literals of `Sections` in the same order. */
  lemma SectionsAsStrings(materias: seq<Materia>)
    ensures Dedup(Map(materias, (m: Materia) => Label(m.ciclo))) == Map(Sections(materias), Label)
  {
    forall a, b | Label(a) == Label(b) ensures a == b {
      LabelInjective(a, b);
    }
    DedupMap(Ciclos(materias), Label);
    var cs := Ciclos(materias);
    assert Map(cs, Label) == Map(materias, (m: Materia) => Label(m.ciclo));
  }

  // ---------------------------------------------------------------------------
  // Cardinality

  lemma {:induction false} DistinctCardinality<T>(s: seq<T>)
    requires NoDuplicates(s)
    ensures |set x | x in s| == |s|
  {
    if |s| > 0 {
      var p, x := s[..|s| - 1], s[|s| - 1];
      assert s == p + [x];
      assert x !in p by {
        forall k | 0 <= k < |p| ensures p[k] != x {
          assert s[k] == p[k];
        }
      }
      DistinctCardinality(p);
      assert (set y | y in s) == (set y | y in p) + {x};
    }
  }

  /** There are three cycles, so at most three distinct ones. */
  lemma DistinctCiclosAtMostThree(s: seq<Ciclo>)
    requires NoDuplicates(s)
    ensures |s| <= 3
  {
    DistinctCardinality(s);
    var all := {CBC, CPC, CPO};
    var elems := set x | x in s;
    assert elems <= all by {
      forall x | x in elems ensures x in all {
        assert x.CBC? || x.CPC? || x.CPO?;
      }
    }
    assert |all| == 3;
    assert |all| == |elems| + |all - elems|;
  }
}
