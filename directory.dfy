/** The public directory page (`app/page.tsx`): the category chips built from
    the comma-separated `rubro` of every business, the filter by category and
    by name, and the category label on each card. The list of active
    businesses comes from a Supabase query and is a parameter here. */
module Directory {
  import opened Strings
  import opened Lists

  /** A `locales` row as the page reads it; a missing `rubro` is the empty string. */
  datatype Local = Local(id: int, nombre: string, slug: string, fotoBanner: string, rubro: string)

  /** `local.rubro || 'General'` */
  function RubroOrGeneral(l: Local): string
  {
    if l.rubro != "" then l.rubro else "General"
  }

  /** `(l.rubro || 'General').split(',').map(tag => tag.trim())` */
  function Tags(l: Local): (r: seq<string>)
    ensures |r| == |Split(RubroOrGeneral(l), ',')| >= 1
  {
    var parts := Split(RubroOrGeneral(l), ',');
    seq(|parts|, k requires 0 <= k < |parts| => Trim(parts[k]))
  }

  lemma {:induction false} NotInBlock(s: string, sub: string, c: char)
    requires Contains(s, sub) && c !in s
    ensures c !in sub
  {
    var i := ContainsOccurs(s, sub);
    assert forall k :: 0 <= k < |sub| ==> sub[k] == s[i + k];
  }

  /** A business without a category has the one tag `General`. */
  lemma {:induction false} TagsOfNoRubro(l: Local)
    requires l.rubro == ""
    ensures Tags(l) == ["General"]
  {
    var g := "General";
    CardLabelWhole(g);
    assert !IsSpace(g[0]) && !IsSpace(g[|g| - 1]);
    assert TrimStart(g) == g;
    assert TrimEnd(g) == g;
    assert Split(RubroOrGeneral(l), ',') == [g];
  }

  /** Every tag is the trimmed comma-separated piece at its position: a
      comma-free block of the category text with no white space at either end. */
  lemma {:induction false} TagsSpec(l: Local)
    ensures forall k :: 0 <= k < |Tags(l)| ==>
      && Tags(l)[k] == Trim(Split(RubroOrGeneral(l), ',')[k])
      && Contains(RubroOrGeneral(l), Tags(l)[k])
      && ',' !in Tags(l)[k]
  {
    var s := RubroOrGeneral(l);
    var parts := Split(s, ',');
    SplitPiecesContained(s, ',');
    forall k | 0 <= k < |parts|
      ensures Contains(s, Tags(l)[k]) && ',' !in Tags(l)[k]
    {
      var t := Trim(parts[k]);
      assert Tags(l)[k] == t;
      ContainsTransitive(s, parts[k], t);
      NotInBlock(parts[k], t, ',');
    }
  }

  /** `todosLosRubros`: the tags of every business, business after business. */
  function TodosLosRubros(ls: seq<Local>): (r: seq<string>)
    ensures |r| >= |ls|
    decreases |ls|
  {
    if |ls| == 0 then [] else Tags(ls[0]) + TodosLosRubros(ls[1..])
  }

  /** A tag is in `todosLosRubros` exactly when some business produced it. */
  lemma {:induction false} TodosLosRubrosSpec(ls: seq<Local>, t: string)
    ensures t in TodosLosRubros(ls) <==> exists i :: 0 <= i < |ls| && t in Tags(ls[i])
    decreases |ls|
  {
    if |ls| > 0 {
      TodosLosRubrosSpec(ls[1..], t);
      if exists i :: 0 <= i < |ls| && t in Tags(ls[i]) {
        var i :| 0 <= i < |ls| && t in Tags(ls[i]);
        if i > 0 {
          assert ls[1..][i - 1] == ls[i];
        }
      }
      if exists i :: 0 <= i < |ls[1..]| && t in Tags(ls[1..][i]) {
        var i :| 0 <= i < |ls[1..]| && t in Tags(ls[1..][i]);
        assert ls[i + 1] == ls[1..][i];
      }
    }
  }

  /** `rubrosUnicos`: `Todos`, then each tag once, in order of first occurrence. */
  function RubrosUnicos(ls: seq<Local>): (r: seq<string>)
    ensures |r| >= 1 && r[0] == "Todos"
    ensures Distinct(r[1..])
  {
    var r := ["Todos"] + Dedup(TodosLosRubros(ls));
    assert r[1..] == Dedup(TodosLosRubros(ls));
    r
  }

  /** The chips after `Todos` are exactly the tags the businesses produce, and
      they stand in the order in which the tags first appear. */
  lemma {:induction false} RubrosUnicosSpec(ls: seq<Local>)
    ensures forall t :: t in RubrosUnicos(ls)[1..] <==> exists i :: 0 <= i < |ls| && t in Tags(ls[i])
    ensures var all := TodosLosRubros(ls); var chips := RubrosUnicos(ls)[1..];
      forall i, j :: 0 <= i < j < |chips| ==> chips[i] in all && chips[j] in all && IndexOf(all, chips[i]) < IndexOf(all, chips[j])
  {
    var all := TodosLosRubros(ls);
    var chips := RubrosUnicos(ls)[1..];
    assert chips == Dedup(all);
    forall t
      ensures t in chips <==> exists i :: 0 <= i < |ls| && t in Tags(ls[i])
    {
      TodosLosRubrosSpec(ls, t);
      if t in chips {
        var k :| 0 <= k < |chips| && chips[k] == t;
      }
      if t in all {
        var k :| 0 <= k < |all| && all[k] == t;
      }
    }
    DedupFirstOccurrenceOrder(all);
  }

  /** A business tagged `Todos` puts a second `Todos` chip after the first:
      the leading chip is added without looking at the tags. */
  lemma {:induction false} TodosTagRepeats(ls: seq<Local>, i: nat)
    requires i < |ls| && "Todos" in Tags(ls[i])
    ensures RubrosUnicos(ls)[0] == "Todos" && "Todos" in RubrosUnicos(ls)[1..]
  {
    RubrosUnicosSpec(ls);
  }

  /** The filter of `localesFiltrados`: the category matches (or is `Todos`)
      and the name contains the search text, both ignoring case. */
  predicate Keep(l: Local, rubroSeleccionado: string, busqueda: string)
    ensures rubroSeleccionado == "Todos" && busqueda == "" ==> Keep(l, rubroSeleccionado, busqueda)
  {
    && (rubroSeleccionado == "Todos" || Contains(ToLower(RubroOrGeneral(l)), ToLower(rubroSeleccionado)))
    && Contains(ToLower(l.nombre), ToLower(busqueda))
  }

  function KeepWith(rubroSeleccionado: string, busqueda: string): (Local -> bool)
  {
    (l: Local) => Keep(l, rubroSeleccionado, busqueda)
  }

  /** `localesFiltrados`: the businesses that pass the filter, in their order. */
  function LocalesFiltrados(ls: seq<Local>, rubroSeleccionado: string, busqueda: string): (r: seq<Local>)
    ensures IsSubseq(r, ls)
    ensures forall l :: l in r <==> l in ls && Keep(l, rubroSeleccionado, busqueda)
  {
    var p := KeepWith(rubroSeleccionado, busqueda);
    FilterIsSubseq(p, ls);
    var r := Filter(p, ls);
    forall l | l in ls && Keep(l, rubroSeleccionado, busqueda)
      ensures l in r
    {
      var i :| 0 <= i < |ls| && ls[i] == l;
      assert p(ls[i]);
    }
    r
  }

  /** With `Todos` selected and nothing typed, every business is shown. */
  lemma {:induction false} ShowAllWhenUnfiltered(ls: seq<Local>)
    ensures LocalesFiltrados(ls, "Todos", "") == ls
  {
    FilterAll(KeepWith("Todos", ""), ls);
  }

  /** Selecting a chip shows every business that carries that tag (which is
      what matching on `includes` over the whole `rubro` is for). */
  lemma {:induction false} ChipShowsItsBusinesses(ls: seq<Local>, tag: string, busqueda: string, l: Local)
    requires l in ls && tag in Tags(l)
    requires Contains(ToLower(l.nombre), ToLower(busqueda))
    ensures l in LocalesFiltrados(ls, tag, busqueda)
  {
    TagsSpec(l);
    var k :| 0 <= k < |Tags(l)| && Tags(l)[k] == tag;
    ContainsToLower(RubroOrGeneral(l), tag);
  }

  /** The label on a card: `local.rubro ? local.rubro.split(',')[0] : 'General'`. */
  function CardLabel(l: Local): (r: string)
    ensures ',' !in r
    ensures r <= RubroOrGeneral(l)
    ensures ',' !in l.rubro ==> r == RubroOrGeneral(l)
    ensures r == RubroOrGeneral(l) || (|r| < |RubroOrGeneral(l)| && RubroOrGeneral(l)[|r|] == ',')
  {
    var s := RubroOrGeneral(l);
    SplitFirstIsPrefix(s, ',');
    SplitFirstEnds(s, ',');
    CardLabelWhole(s);
    Split(s, ',')[0]
  }

  lemma {:induction false} CardLabelWhole(s: string)
    ensures ',' !in s ==> Split(s, ',') == [s]
  {
    if ',' !in s {
      SplitJoin([s], ',');
    }
  }

  /** The card shows the first tag, before trimming. */
  lemma {:induction false} CardLabelIsFirstTag(l: Local)
    ensures Trim(CardLabel(l)) == Tags(l)[0]
  {
  }
}
