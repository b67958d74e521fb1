/** The admin moderation panel (`app/gestion1/PanelGestion.tsx`): the owner list
    synchronised with the business statuses, the per-status counts, the tab and
    search filters, the status moves offered per item, the confirmation step,
    and the public slug of a business. The Supabase queries are not modelled:
    their results are parameters, and the `locales` update is a function on
    the table's rows. */
module Gestion {
  import opened Wrappers
  import opened Strings
  import opened Lists

  /** The four statuses a business can be moved to (`EstadoReal`). */
  datatype Status = Contactar | Activo | Standby | Papelera
  {
    /** The string stored in the `estado` column. */
    function Label(): string
    {
      match this
      case Contactar => "contactar"
      case Activo => "activo"
      case Standby => "standby"
      case Papelera => "papelera"
    }
  }

  /** A tab of the panel (`TabEstado`): everything, or one status. */
  datatype Tab = Todos | Only(status: Status)

  /** A row of the `dueño_local` table. Names read through `?.` are optional;
      the e-mail and the status are read through `||` or `===`, so a missing
      value is the empty string. */
  datatype Owner = Owner(
    id: int,
    nombreLocal: Option<string>,
    nombreDueno: Option<string>,
    correo: string,
    telefono: string,
    plan: string,
    estado: string)

  /** The columns `correo_dueño, foto_banner, estado` of a `locales` row; a
      missing value is the empty string. */
  datatype LocalInfo = LocalInfo(correo: string, fotoBanner: string, estado: string)

  function EstadoOf(l: LocalInfo): string { l.estado }

  function BannerOf(l: LocalInfo): string { l.fotoBanner }

  /** The map that `localesInfo.forEach` fills: every business with a non-empty
      owner e-mail writes `value(l)` under that e-mail, a later one over an
      earlier one. */
  function KeyedBy(infos: seq<LocalInfo>, value: LocalInfo -> string): (m: map<string, string>)
    ensures "" !in m
    decreases |infos|
  {
    if |infos| == 0 then map[]
    else
      var m := KeyedBy(infos[..|infos| - 1], value);
      var l := infos[|infos| - 1];
      if l.correo != "" then m[l.correo := value(l)] else m
  }

  /** The keys are exactly the non-empty e-mails of the businesses. */
  lemma {:induction false} KeyedByKeys(infos: seq<LocalInfo>, value: LocalInfo -> string, e: string)
    ensures e in KeyedBy(infos, value) <==> e != "" && exists j :: 0 <= j < |infos| && infos[j].correo == e
    decreases |infos|
  {
    if |infos| > 0 {
      var init := infos[..|infos| - 1];
      KeyedByKeys(init, value, e);
      if exists j :: 0 <= j < |infos| && infos[j].correo == e {
        var j :| 0 <= j < |infos| && infos[j].correo == e;
        if j < |infos| - 1 {
          assert init[j] == infos[j];
        }
      }
      if exists j :: 0 <= j < |init| && init[j].correo == e {
        var j :| 0 <= j < |init| && init[j].correo == e;
        assert infos[j] == init[j];
      }
    }
  }

  /** Under each key stands the value of the LAST business with that e-mail. */
  lemma {:induction false} KeyedByLastWins(infos: seq<LocalInfo>, value: LocalInfo -> string, i: nat)
    requires i < |infos| && infos[i].correo != ""
    requires forall j :: i < j < |infos| ==> infos[j].correo != infos[i].correo
    ensures infos[i].correo in KeyedBy(infos, value)
    ensures KeyedBy(infos, value)[infos[i].correo] == value(infos[i])
    decreases |infos|
  {
    var init := infos[..|infos| - 1];
    if i < |infos| - 1 {
      KeyedByLastWins(init, value, i);
    }
  }

  /** The loop at the heart of `fetchDatos`: the banner and status maps,
      built by one pass over the business rows. */
  method BuildMaps(infos: seq<LocalInfo>) returns (banners: map<string, string>, estados: map<string, string>)
    ensures banners == KeyedBy(infos, BannerOf)
    ensures estados == KeyedBy(infos, EstadoOf)
  {
    banners, estados := map[], map[];
    var i := 0;
    while i < |infos|
      invariant 0 <= i <= |infos|
      invariant banners == KeyedBy(infos[..i], BannerOf)
      invariant estados == KeyedBy(infos[..i], EstadoOf)
    {
      var l := infos[i];
      assert infos[..i + 1][..i] == infos[..i];
      if l.correo != "" {
        banners := banners[l.correo := l.fotoBanner];
        estados := estados[l.correo := l.estado];
      }
      i := i + 1;
    }
    assert infos[..i] == infos;
  }

  /** `mapaEstados[dueño.correo_dueño] || dueño.estado`: the business status
      when there is a non-empty one, otherwise the owner's own. */
  function SyncedStatus(o: Owner, estados: map<string, string>): string
  {
    if o.correo in estados && estados[o.correo] != "" then estados[o.correo] else o.estado
  }

  /** `datosSincronizados`: every owner with its status replaced as above. */
  function Sync(owners: seq<Owner>, estados: map<string, string>): (r: seq<Owner>)
    ensures |r| == |owners|
  {
    seq(|owners|, i requires 0 <= i < |owners| => owners[i].(estado := SyncedStatus(owners[i], estados)))
  }

  /** What the synchronised list says, in terms of the business rows: the same
      owners in the same order with only `estado` changed; an owner takes the
      status of the last business carrying its e-mail when that status is
      non-empty, and keeps its own otherwise. */
  lemma {:induction false} SyncFromBusinesses(owners: seq<Owner>, infos: seq<LocalInfo>, i: nat)
    requires i < |owners|
    ensures var r := Sync(owners, KeyedBy(infos, EstadoOf));
      && |r| == |owners|
      && r[i].(estado := owners[i].estado) == owners[i]
      && ((owners[i].correo == "" || forall j :: 0 <= j < |infos| ==> infos[j].correo != owners[i].correo)
          ==> r[i].estado == owners[i].estado)
      && (forall j :: (0 <= j < |infos| && infos[j].correo == owners[i].correo != "" &&
                       (forall k :: j < k < |infos| ==> infos[k].correo != owners[i].correo))
            ==> r[i].estado == if infos[j].estado != "" then infos[j].estado else owners[i].estado)
  {
    var e := owners[i].correo;
    KeyedByKeys(infos, EstadoOf, e);
    forall j | 0 <= j < |infos| && infos[j].correo == e != "" &&
        (forall k :: j < k < |infos| ==> infos[k].correo != e)
      ensures KeyedBy(infos, EstadoOf)[e] == infos[j].estado
    {
      KeyedByLastWins(infos, EstadoOf, j);
    }
  }

  /** The per-tab counters shown on the tab buttons. */
  datatype Counts = Counts(todos: nat, contactar: nat, activo: nat, standby: nat, papelera: nat)
  {
    /** `conteos[e]` */
    function Get(t: Tab): nat
    {
      match t
      case Todos => todos
      case Only(Contactar) => contactar
      case Only(Activo) => activo
      case Only(Standby) => standby
      case Only(Papelera) => papelera
    }
  }

  function HasStatus(estado: string): (Owner -> bool)
  {
    (o: Owner) => o.estado == estado
  }

  /** `xs.filter(d => d.estado === estado)` */
  function WithStatus(s: seq<Owner>, estado: string): seq<Owner>
  {
    Filter(HasStatus(estado), s)
  }

  /** The `counts` record of `fetchDatos`. */
  function CountsOf(s: seq<Owner>): (c: Counts)
    ensures c.todos == |s|
    ensures c.contactar <= |s| && c.activo <= |s| && c.standby <= |s| && c.papelera <= |s|
  {
    Counts(|s|,
      |WithStatus(s, Contactar.Label())|,
      |WithStatus(s, Activo.Label())|,
      |WithStatus(s, Standby.Label())|,
      |WithStatus(s, Papelera.Label())|)
  }

  /** The list shown under a tab: everything for `todos`, otherwise the items
      whose status is exactly the tab's. */
  function TabFilter(s: seq<Owner>, t: Tab): (r: seq<Owner>)
    ensures |r| <= |s|
    ensures forall i :: 0 <= i < |r| ==> r[i] in s
  {
    match t
    case Todos => s
    case Only(st) => WithStatus(s, st.Label())
  }

  /** The tab filter keeps exactly the items of that status, in their order. */
  lemma {:induction false} TabFilterSpec(s: seq<Owner>, t: Tab)
    ensures IsSubseq(TabFilter(s, t), s)
    ensures t == Todos ==> TabFilter(s, t) == s
    ensures t.Only? ==> forall o :: o in TabFilter(s, t) <==> o in s && o.estado == t.status.Label()
  {
    if t.Only? {
      FilterIsSubseq(HasStatus(t.status.Label()), s);
      var r := TabFilter(s, t);
      forall o | o in s && o.estado == t.status.Label()
        ensures o in r
      {
        var i :| 0 <= i < |s| && s[i] == o;
        assert HasStatus(t.status.Label())(s[i]);
      }
    } else {
      IsSubseqRefl(s);
    }
  }

  lemma {:induction false} IsSubseqRefl(s: seq<Owner>)
    ensures IsSubseq(s, s)
    decreases |s|
  {
    if |s| > 0 {
      IsSubseqRefl(s[1..]);
    }
  }

  /** The badge on each tab is the length of the list that tab shows. */
  lemma {:induction false} CountMatchesTab(s: seq<Owner>, t: Tab)
    ensures CountsOf(s).Get(t) == |TabFilter(s, t)|
  {
  }

  /** Every item is counted under at most one status, so the four status
      counters add up to at most `todos`. */
  lemma {:induction false} CountsBound(s: seq<Owner>)
    ensures var c := CountsOf(s); c.contactar + c.activo + c.standby + c.papelera <= c.todos
    decreases |s|
  {
    if |s| > 0 {
      CountsBound(s[1..]);
      assert WithStatus(s, "contactar") == (if s[0].estado == "contactar" then [s[0]] else []) + WithStatus(s[1..], "contactar");
      assert WithStatus(s, "activo") == (if s[0].estado == "activo" then [s[0]] else []) + WithStatus(s[1..], "activo");
      assert WithStatus(s, "standby") == (if s[0].estado == "standby" then [s[0]] else []) + WithStatus(s[1..], "standby");
      assert WithStatus(s, "papelera") == (if s[0].estado == "papelera" then [s[0]] else []) + WithStatus(s[1..], "papelera");
    }
  }

  /** `nombre?.toLowerCase().includes(busqueda.toLowerCase())`: false when the
      name is missing. */
  predicate NameMatches(name: Option<string>, query: string)
  {
    name.Some? && Contains(ToLower(name.value), ToLower(query))
  }

  function SearchMatch(query: string): (Owner -> bool)
  {
    (o: Owner) => NameMatches(o.nombreLocal, query) || NameMatches(o.nombreDueno, query)
  }

  /** `datosFiltrados`: the items whose business name or owner name contains
      the query, ignoring case, in their original order. */
  function Search(items: seq<Owner>, query: string): (r: seq<Owner>)
    ensures IsSubseq(r, items)
    ensures forall o :: o in r <==> o in items && (NameMatches(o.nombreLocal, query) || NameMatches(o.nombreDueno, query))
  {
    FilterIsSubseq(SearchMatch(query), items);
    var r := Filter(SearchMatch(query), items);
    assert forall o :: o in items && SearchMatch(query)(o) ==> o in r by {
      forall o | o in items && SearchMatch(query)(o)
        ensures o in r
      {
        var i :| 0 <= i < |items| && items[i] == o;
      }
    }
    r
  }

  /** An empty query keeps exactly the items that have at least one of the two names. */
  lemma {:induction false} SearchEmptyQuery(items: seq<Owner>)
    ensures forall o :: o in Search(items, "") <==> o in items && (o.nombreLocal.Some? || o.nombreDueno.Some?)
    ensures (forall o :: o in items ==> o.nombreLocal.Some? || o.nombreDueno.Some?) ==> Search(items, "") == items
  {
    assert forall n: Option<string> :: n.Some? ==> NameMatches(n, "");
    if forall o :: o in items ==> o.nombreLocal.Some? || o.nombreDueno.Some? {
      FilterAll(SearchMatch(""), items);
    }
  }

  /** The status buttons of an item (lines 224-232 of the panel). */
  datatype Action = Activar | Ocultar | VolverAContactar | EnviarAPapelera | Restaurar
  {
    /** The status the button asks to move to. */
    function Target(): Status
    {
      match this
      case Activar => Activo
      case Ocultar => Standby
      case VolverAContactar => Contactar
      case EnviarAPapelera => Papelera
      case Restaurar => Contactar
    }
  }

  /** The buttons offered for an item with status `estado`, in screen order. */
  function Offered(estado: string): (r: seq<Action>)
    ensures forall a :: a in r ==> a.Target().Label() != estado
    ensures estado == Papelera.Label() ==> r == [Restaurar]
    ensures Ocultar in r <==> estado == Activo.Label()
    ensures Activar in r <==> estado != Activo.Label() && estado != Papelera.Label()
    ensures VolverAContactar in r <==> estado != Contactar.Label() && estado != Papelera.Label()
    ensures (EnviarAPapelera in r) != (Restaurar in r)
  {
    (if estado != "activo" && estado != "papelera" then [Activar] else [])
    + (if estado == "activo" then [Ocultar] else [])
    + (if estado != "contactar" && estado != "papelera" then [VolverAContactar] else [])
    + (if estado != "papelera" then [EnviarAPapelera] else [Restaurar])
  }

  /** The statuses reachable in one move from a known status: all the other
      three, except that `standby` is reachable only from `activo` and
      `papelera` leads back only to `contactar`. */
  lemma {:induction false} MovesBetweenStatuses(from: Status, to: Status)
    ensures (exists a :: a in Offered(from.Label()) && a.Target() == to) <==>
      && from != to
      && (to == Standby ==> from == Activo)
      && (from == Papelera ==> to == Contactar)
  {
    var r := Offered(from.Label());
    if from != to && (to == Standby ==> from == Activo) && (from == Papelera ==> to == Contactar) {
      match to
      case Activo => assert Activar in r;
      case Standby => assert Ocultar in r;
      case Contactar => assert (if from == Papelera then Restaurar else VolverAContactar) in r;
      case Papelera => assert EnviarAPapelera in r;
    }
  }

  /** The `locales` update `update({ estado }).eq('correo_dueño', correo)`. */
  function SetStatusByOwner(table: seq<LocalInfo>, correo: string, nuevo: string): (r: seq<LocalInfo>)
    ensures |r| == |table|
  {
    seq(|table|, i requires 0 <= i < |table| => if table[i].correo == correo then table[i].(estado := nuevo) else table[i])
  }

  /** The update touches only the rows of that owner, and only their status. */
  lemma {:induction false} SetStatusByOwnerSpec(table: seq<LocalInfo>, correo: string, nuevo: string, i: nat)
    requires i < |table|
    ensures var r := SetStatusByOwner(table, correo, nuevo);
      && r[i].(estado := table[i].estado) == table[i]
      && (table[i].correo == correo ==> r[i].estado == nuevo)
      && (table[i].correo != correo ==> r[i] == table[i])
  {
  }

  /** After a move is written, the next synchronisation shows every owner with
      that e-mail under the new status, provided a business row carries it. */
  lemma {:induction false} MoveTakesEffect(owners: seq<Owner>, table: seq<LocalInfo>, i: nat, st: Status)
    requires i < |owners| && owners[i].correo != ""
    requires exists j :: 0 <= j < |table| && table[j].correo == owners[i].correo
    ensures Sync(owners, KeyedBy(SetStatusByOwner(table, owners[i].correo, st.Label()), EstadoOf))[i].estado == st.Label()
  {
    var e := owners[i].correo;
    var t := SetStatusByOwner(table, e, st.Label());
    var j :| 0 <= j < |table| && table[j].correo == e;
    var last := LastWith(t, e, j);
    KeyedByLastWins(t, EstadoOf, last);
  }

  /** The last index at or after `j` whose row carries `e`. */
  lemma {:induction false} LastWith(t: seq<LocalInfo>, e: string, j: nat) returns (last: nat)
    requires j < |t| && t[j].correo == e
    ensures j <= last < |t| && t[last].correo == e
    ensures forall k :: last < k < |t| ==> t[k].correo != e
    decreases |t| - j
  {
    if exists k :: j < k < |t| && t[k].correo == e {
      var k :| j < k < |t| && t[k].correo == e;
      last := LastWith(t, e, k);
    } else {
      last := j;
    }
  }

  /** A move for an owner no business row carries leaves the table as it was:
      the panel then goes on showing the owner's own status. */
  lemma {:induction false} MoveWithoutBusinessIsLost(table: seq<LocalInfo>, correo: string, nuevo: string)
    requires forall j :: 0 <= j < |table| ==> table[j].correo != correo
    ensures SetStatusByOwner(table, correo, nuevo) == table
  {
  }

  /** `item.nombre_local.toLowerCase().replace(/\s+/g, '-')`: the path the
      eye button opens. */
  function Slug(name: string): (r: string)
    ensures forall i :: 0 <= i < |r| ==> !IsSpace(r[i])
    ensures |r| <= |name|
  {
    CollapseSpaces(ToLower(name))
  }

  /** `s.replace(/\s+/g, '-')`: every maximal run of white space becomes one `-`. */
  function CollapseSpaces(s: string): (r: string)
    ensures forall i :: 0 <= i < |r| ==> !IsSpace(r[i])
    ensures |r| <= |s|
    ensures |s| > 0 && !IsSpace(s[0]) ==> |r| > 0 && r[0] == s[0]
    decreases |s|
  {
    if |s| == 0 then []
    else if IsSpace(s[0]) then
      var rest := CollapseSpaces(TrimStart(s[1..]));
      ConsNoSpace('-', rest);
      "-" + rest
    else
      var rest := CollapseSpaces(s[1..]);
      ConsNoSpace(s[0], rest);
      [s[0]] + rest
  }

  lemma {:induction false} ConsNoSpace(c: char, rest: string)
    requires !IsSpace(c)
    requires forall i :: 0 <= i < |rest| ==> !IsSpace(rest[i])
    ensures forall i :: 0 <= i < |[c] + rest| ==> !IsSpace(([c] + rest)[i])
  {
    forall i | 0 <= i < |[c] + rest|
      ensures !IsSpace(([c] + rest)[i])
    {
      if i > 0 {
        assert ([c] + rest)[i] == rest[i - 1];
      }
    }
  }

  /** Text with no white space passes through unchanged. */
  lemma {:induction false} CollapseSpacesNoSpace(s: string)
    requires forall i :: 0 <= i < |s| ==> !IsSpace(s[i])
    ensures CollapseSpaces(s) == s
    decreases |s|
  {
    if |s| > 0 {
      CollapseSpacesNoSpace(s[1..]);
    }
  }

  /** A slug is its own slug. */
  lemma {:induction false} SlugIdempotent(name: string)
    ensures Slug(Slug(name)) == Slug(name)
  {
    var r := Slug(name);
    assert ToLower(r) == r by {
      assert forall i :: 0 <= i < |r| ==> LowerChar(r[i]) == r[i] by {
        CollapseLower(ToLower(name));
      }
    }
    CollapseSpacesNoSpace(r);
  }

  /** Collapsing lower-cased text gives lower-cased text. */
  lemma {:induction false} CollapseLower(s: string)
    requires forall i :: 0 <= i < |s| ==> LowerChar(s[i]) == s[i]
    ensures forall i :: 0 <= i < |CollapseSpaces(s)| ==> LowerChar(CollapseSpaces(s)[i]) == CollapseSpaces(s)[i]
    decreases |s|
  {
    if |s| > 0 {
      if IsSpace(s[0]) {
        var t := TrimStart(s[1..]);
        assert forall i :: 0 <= i < |t| ==> t[i] == s[1..][|s| - 1 - |t| + i];
        CollapseLower(t);
      } else {
        CollapseLower(s[1..]);
      }
    }
  }

  /** When the name holds no `-` of its own, no two `-` of the slug are
      adjacent: each run of white space gave exactly one. */
  lemma {:induction false} CollapseNoDoubleDash(s: string)
    requires '-' !in s
    ensures forall i :: 0 <= i < |CollapseSpaces(s)| - 1 ==> !(CollapseSpaces(s)[i] == '-' && CollapseSpaces(s)[i + 1] == '-')
    decreases |s|
  {
    if |s| > 0 {
      var r := CollapseSpaces(s);
      if IsSpace(s[0]) {
        var t := TrimStart(s[1..]);
        assert '-' !in t by {
          assert forall i :: 0 <= i < |t| ==> t[i] == s[1..][|s| - 1 - |t| + i];
        }
        CollapseNoDoubleDash(t);
        assert r == "-" + CollapseSpaces(t);
        assert |t| > 0 ==> CollapseSpaces(t)[0] == t[0] != '-';
      } else {
        CollapseNoDoubleDash(s[1..]);
        assert r == [s[0]] + CollapseSpaces(s[1..]);
      }
    }
  }

  /** White space followed by a non-space (or nothing) is dropped whole by `trimStart`. */
  lemma {:induction false} TrimStartSpaces(w: string, v: string)
    requires forall i :: 0 <= i < |w| ==> IsSpace(w[i])
    requires v == [] || !IsSpace(v[0])
    ensures TrimStart(w + v) == v
    decreases |w|
  {
    if |w| > 0 {
      assert (w + v)[1..] == w[1..] + v;
      TrimStartSpaces(w[1..], v);
    } else {
      assert w + v == v;
    }
  }

  /** `trimStart` stops inside `a` when `a` ends in a non-space. */
  lemma {:induction false} TrimStartAppend(a: string, b: string)
    requires |a| > 0 && !IsSpace(a[|a| - 1])
    ensures TrimStart(a + b) == TrimStart(a) + b
    decreases |a|
  {
    if IsSpace(a[0]) {
      assert (a + b)[1..] == a[1..] + b;
      TrimStartAppend(a[1..], b);
    }
  }

  /** `replace(/\s+/g, '-')` turns one maximal run of white space `w`, between
      a part `u` that does not end in white space and a part `v` that does not
      start with it, into exactly one `-`. */
  lemma {:induction false} CollapseRun(u: string, w: string, v: string)
    requires |w| > 0 && forall i :: 0 <= i < |w| ==> IsSpace(w[i])
    requires u == [] || !IsSpace(u[|u| - 1])
    requires v == [] || !IsSpace(v[0])
    ensures CollapseSpaces(u + w + v) == CollapseSpaces(u) + "-" + CollapseSpaces(v)
    decreases |u|
  {
    if |u| == 0 {
      CollapseLeadingRun(w, v);
      assert u + w + v == w + v;
    } else if IsSpace(u[0]) {
      var t := TrimStart(u[1..]);
      assert |t| > 0 && t[|t| - 1] == u[|u| - 1];
      CollapseRun(t, w, v);
      CollapseSpaceHead(u, w + v);
      SeqAssoc(u, w, v);
      SeqAssoc(t, w, v);
      SeqAssoc("-", CollapseSpaces(t) + "-", CollapseSpaces(v));
      SeqAssoc("-", CollapseSpaces(t), "-");
    } else {
      var u' := u[1..];
      CollapseRun(u', w, v);
      CollapseCharHead(u, w + v);
      SeqAssoc(u, w, v);
      SeqAssoc(u', w, v);
      SeqAssoc([u[0]], CollapseSpaces(u') + "-", CollapseSpaces(v));
      SeqAssoc([u[0]], CollapseSpaces(u'), "-");
    }
  }

  lemma {:induction false} SeqAssoc(a: string, b: string, c: string)
    ensures a + (b + c) == a + b + c
  {
  }

  /** A text starting with white space and ending in a non-space: the leading
      run becomes `-` both before and after appending `b`. */
  lemma {:induction false} CollapseSpaceHead(u: string, b: string)
    requires |u| > 0 && IsSpace(u[0]) && !IsSpace(u[|u| - 1])
    ensures CollapseSpaces(u + b) == "-" + CollapseSpaces(TrimStart(u[1..]) + b)
    ensures CollapseSpaces(u) == "-" + CollapseSpaces(TrimStart(u[1..]))
  {
    assert (u + b)[0] == u[0];
    assert (u + b)[1..] == u[1..] + b;
    TrimStartAppend(u[1..], b);
  }

  /** A text starting with a non-space keeps that character in front. */
  lemma {:induction false} CollapseCharHead(u: string, b: string)
    requires |u| > 0 && !IsSpace(u[0])
    ensures CollapseSpaces(u + b) == [u[0]] + CollapseSpaces(u[1..] + b)
    ensures CollapseSpaces(u) == [u[0]] + CollapseSpaces(u[1..])
  {
    assert (u + b)[0] == u[0];
    assert (u + b)[1..] == u[1..] + b;
  }

  /** A leading run of white space becomes one `-`. */
  lemma {:induction false} CollapseLeadingRun(w: string, v: string)
    requires |w| > 0 && forall i :: 0 <= i < |w| ==> IsSpace(w[i])
    requires v == [] || !IsSpace(v[0])
    ensures CollapseSpaces(w + v) == "-" + CollapseSpaces(v)
  {
    assert (w + v)[0] == w[0];
    assert (w + v)[1..] == w[1..] + v;
    TrimStartSpaces(w[1..], v);
  }

  /** The slug of a name is built run by run: each maximal run of white space
      becomes one `-`, and the text on either side is slugged on its own. */
  lemma {:induction false} SlugRun(u: string, w: string, v: string)
    requires |w| > 0 && forall i :: 0 <= i < |w| ==> IsSpace(w[i])
    requires u == [] || !IsSpace(u[|u| - 1])
    requires v == [] || !IsSpace(v[0])
    ensures Slug(u + w + v) == Slug(u) + "-" + Slug(v)
  {
    ToLowerAppend(u + w, v);
    ToLowerAppend(u, w);
    var lu, lw, lv := ToLower(u), ToLower(w), ToLower(v);
    assert forall i :: 0 <= i < |lw| ==> IsSpace(lw[i]);
    CollapseRun(lu, lw, lv);
  }

  lemma {:induction false} SlugNoDoubleDash(name: string)
    requires '-' !in name
    ensures forall i :: 0 <= i < |Slug(name)| - 1 ==> !(Slug(name)[i] == '-' && Slug(name)[i + 1] == '-')
  {
    assert '-' !in ToLower(name) by {
      assert forall i :: 0 <= i < |name| ==> ToLower(name)[i] != '-';
    }
    CollapseNoDoubleDash(ToLower(name));
  }

  predicate NotSpace(c: char) { !IsSpace(c) }

  predicate NotDash(c: char) { c != '-' }

  lemma {:induction false} FilterDropSpaces(u: string, n: nat)
    requires n <= |u| && forall i :: 0 <= i < n ==> IsSpace(u[i])
    ensures Filter(NotSpace, u) == Filter(NotSpace, u[n..])
    decreases n
  {
    if n > 0 {
      FilterDropSpaces(u[1..], n - 1);
      assert u[1..][n - 1..] == u[n..];
    }
  }

  /** Apart from the dashes it adds, collapsing keeps every other character in order. */
  lemma {:induction false} CollapseKeepsText(s: string)
    requires '-' !in s
    ensures Filter(NotDash, CollapseSpaces(s)) == Filter(NotSpace, s)
    decreases |s|
  {
    if |s| > 0 {
      var r := CollapseSpaces(s);
      if IsSpace(s[0]) {
        var t := TrimStart(s[1..]);
        assert '-' !in t by {
          assert forall i :: 0 <= i < |t| ==> t[i] == s[1..][|s| - 1 - |t| + i];
        }
        CollapseKeepsText(t);
        assert ("-" + CollapseSpaces(t))[1..] == CollapseSpaces(t);
        FilterDropSpaces(s[1..], |s| - 1 - |t|);
      } else {
        CollapseKeepsText(s[1..]);
        assert ([s[0]] + CollapseSpaces(s[1..]))[1..] == CollapseSpaces(s[1..]);
      }
    }
  }

  /** For a name with no `-` of its own, dropping the dashes from the slug
      gives the lower-cased name without its white space. */
  lemma {:induction false} SlugKeepsText(name: string)
    requires '-' !in name
    ensures Filter(NotDash, Slug(name)) == Filter(NotSpace, ToLower(name))
  {
    assert '-' !in ToLower(name) by {
      assert forall i :: 0 <= i < |name| ==> ToLower(name)[i] != '-';
    }
    CollapseKeepsText(ToLower(name));
  }

  /** A pending confirmation: the item and the status it is to be moved to. */
  datatype Pending = Pending(item: Owner, nuevoEstado: Status)

  /** How the `locales` update ended: written; answered with an error, which
      the panel ignores; or thrown, which the `catch` reports. */
  datatype UpdateOutcome = Applied | Rejected | Thrown

  /** The panel's React state. */
  class PanelGestion {
    var tab: Tab
    var datos: seq<Owner>
    var busqueda: string
    var cargando: bool
    var fotosBanner: map<string, string>
    var conteos: Counts
    var confirmacion: Option<Pending>

    constructor ()
      ensures tab == Todos && datos == [] && busqueda == "" && cargando
      ensures fotosBanner == map[] && conteos == Counts(0, 0, 0, 0, 0) && confirmacion == None
    {
      tab := Todos;
      datos := [];
      busqueda := "";
      cargando := true;
      fotosBanner := map[];
      conteos := Counts(0, 0, 0, 0, 0);
      confirmacion := None;
    }

    /** `fetchDatos`, given what the two queries returned (`None` for an error
        or no data). Without owners nothing but the loading flag changes;
        without business rows the owners keep their own statuses and the
        banners stay as they were. */
    method FetchDatos(owners: Option<seq<Owner>>, infos: Option<seq<LocalInfo>>)
      modifies this
      ensures tab == old(tab) && busqueda == old(busqueda) && confirmacion == old(confirmacion) && !cargando
      ensures owners.None? ==> datos == old(datos) && conteos == old(conteos) && fotosBanner == old(fotosBanner)
      ensures owners.Some? ==>
        var synced := Sync(owners.value, if infos.Some? then KeyedBy(infos.value, EstadoOf) else map[]);
        && conteos == CountsOf(synced)
        && datos == TabFilter(synced, tab)
        && fotosBanner == if infos.Some? then KeyedBy(infos.value, BannerOf) else old(fotosBanner)
    {
      cargando := true;
      if owners.Some? {
        var estados: map<string, string> := map[];
        if infos.Some? {
          var banners;
          banners, estados := BuildMaps(infos.value);
          fotosBanner := banners;
        }
        var synced := Sync(owners.value, estados);
        conteos := CountsOf(synced);
        datos := TabFilter(synced, tab);
      }
      cargando := false;
    }

    /** A click on a tab. Clicking the current tab leaves the state as it is:
        React skips an update to an equal value, so the effect on `[tab]` does
        not run. Any other tab is stored and the effect fetches again. */
    method SelectTab(t: Tab, owners: Option<seq<Owner>>, infos: Option<seq<LocalInfo>>)
      modifies this
      ensures old(tab) == t ==> unchanged(this)
      ensures old(tab) != t ==>
        && tab == t && busqueda == old(busqueda) && confirmacion == old(confirmacion) && !cargando
        && (owners.None? ==> datos == old(datos) && conteos == old(conteos) && fotosBanner == old(fotosBanner))
        && (owners.Some? ==>
              var synced := Sync(owners.value, if infos.Some? then KeyedBy(infos.value, EstadoOf) else map[]);
              && conteos == CountsOf(synced)
              && datos == TabFilter(synced, t)
              && fotosBanner == if infos.Some? then KeyedBy(infos.value, BannerOf) else old(fotosBanner))
    {
      if t != tab {
        tab := t;
        FetchDatos(owners, infos);
      }
    }

    /** Typing in the search box. */
    method SetBusqueda(q: string)
      modifies this`busqueda
      ensures busqueda == q
    {
      busqueda := q;
    }

    /** `datosFiltrados`: the current tab's list narrowed by the search box. */
    function DatosFiltrados(): (r: seq<Owner>)
      reads this
      ensures IsSubseq(r, datos)
      ensures forall o :: o in r <==> o in datos && (NameMatches(o.nombreLocal, busqueda) || NameMatches(o.nombreDueno, busqueda))
    {
      Search(datos, busqueda)
    }

    /** `solicitarCambio`: remember the move and open the confirmation dialog. */
    method SolicitarCambio(item: Owner, nuevoEstado: Status)
      modifies this`confirmacion
      ensures confirmacion == Some(Pending(item, nuevoEstado))
    {
      confirmacion := Some(Pending(item, nuevoEstado));
    }

    /** The dialog's Cancelar button: forget the move, change nothing else. */
    method Cancelar()
      modifies this`confirmacion
      ensures confirmacion == None
    {
      confirmacion := None;
    }

    /** `ejecutarCambio` on the `locales` rows `table`: with nothing pending it
        does nothing; otherwise it asks for the update and, unless the call
        throws, closes the dialog. Returns the rows as they are afterwards. */
    method EjecutarCambio(table: seq<LocalInfo>, outcome: UpdateOutcome) returns (after: seq<LocalInfo>)
      modifies this`confirmacion
      ensures old(confirmacion).None? ==> after == table && confirmacion == None
      ensures old(confirmacion).Some? ==>
        var p := old(confirmacion).value;
        && after == (if outcome == Applied then SetStatusByOwner(table, p.item.correo, p.nuevoEstado.Label()) else table)
        && confirmacion == (if outcome == Thrown then old(confirmacion) else None)
    {
      after := table;
      if confirmacion.None? {
        return;
      }
      var p := confirmacion.value;
      if outcome == Applied {
        after := SetStatusByOwner(table, p.item.correo, p.nuevoEstado.Label());
      }
      if outcome != Thrown {
        confirmacion := None;
      }
    }
  }
}
