/** The owner sign-up form (`app/negocios/page.tsx`): the phone field
    sanitiser, the stored phone, the plan lookup, and the row the form
    inserts into `dueño_local`. The plan list comes from a Supabase query and
    is a parameter here. */
module Signup {
  import opened Wrappers
  import opened Lists
  import Gestion

  predicate IsDigit(c: char)
  {
    '0' <= c <= '9'
  }

  predicate AllDigits(s: string)
  {
    forall i :: 0 <= i < |s| ==> IsDigit(s[i])
  }

  /** `value.replace(/\D/g, '').slice(0, 8)`: at most eight characters, all
      digits, taken in order from the input; as many as the input has, up to eight. */
  function SanitizePhone(input: string): (r: string)
    ensures AllDigits(r)
    ensures |r| <= 8
    ensures IsSubseq(r, input)
    ensures r <= Filter(IsDigit, input)
    ensures |r| == if |Filter(IsDigit, input)| < 8 then |Filter(IsDigit, input)| else 8
  {
    var digits := Filter(IsDigit, input);
    FilterIsSubseq(IsDigit, input);
    PrefixOfSubseq(digits, input, if |digits| < 8 then |digits| else 8);
    assert digits[..|digits|] == digits;
    if |digits| <= 8 then digits else digits[..8]
  }

  /** Sanitising a sanitised value gives it back. */
  lemma {:induction false} SanitizePhoneIdempotent(input: string)
    ensures SanitizePhone(SanitizePhone(input)) == SanitizePhone(input)
  {
    SanitizeFixpoint(SanitizePhone(input));
  }

  /** The values the sanitiser leaves alone are exactly the digit strings of
      length at most eight. */
  lemma {:induction false} SanitizeFixpoint(s: string)
    ensures SanitizePhone(s) == s <==> AllDigits(s) && |s| <= 8
  {
    if AllDigits(s) && |s| <= 8 {
      FilterAll(IsDigit, s);
    }
  }

  /** `` `+569${telefono}` ``: the Chilean mobile prefix before the digits. */
  function StoredPhone(digits: string): (r: string)
    ensures |r| == |digits| + 4
    ensures r[..4] == "+569" && r[4..] == digits
  {
    "+569" + digits
  }

  /** What reaches the database from the phone field: the prefix and then at
      most eight digits, so at most twelve characters. */
  lemma {:induction false} StoredPhoneShape(input: string)
    ensures var r := StoredPhone(SanitizePhone(input));
      && r[..4] == "+569" && |r| <= 12 && AllDigits(r[4..])
  {
  }

  /** A row of the `planes` table. */
  datatype Plan = Plan(id: int, nombre: string, descripcion: string, valor: int)

  function DigitChar(d: nat): char
    requires d < 10
  {
    (d + '0' as int) as char
  }

  /** The decimal digits of `n`, without leading zeros. */
  function NatToString(n: nat): (r: string)
    ensures |r| >= 1 && AllDigits(r)
    ensures n >= 10 ==> |r| >= 2
    decreases n
  {
    if n < 10 then [DigitChar(n)] else NatToString(n / 10) + [DigitChar(n % 10)]
  }

  /** `n.toString()` for an integer. */
  function IntToString(n: int): (r: string)
    ensures |r| >= 1
  {
    if n < 0 then "-" + NatToString(-n) else NatToString(n)
  }

  lemma {:induction false} NatToStringInjective(a: nat, b: nat)
    requires NatToString(a) == NatToString(b)
    ensures a == b
    decreases a
  {
    var s := NatToString(a);
    if a >= 10 && b >= 10 {
      assert s[|s| - 1] == DigitChar(a % 10) == DigitChar(b % 10);
      assert s[..|s| - 1] == NatToString(a / 10) == NatToString(b / 10);
      NatToStringInjective(a / 10, b / 10);
    }
  }

  /** Different ids never print the same, so a plan's option value names only
      plans with that very id. */
  lemma {:induction false} IntToStringInjective(a: int, b: int)
    requires IntToString(a) == IntToString(b)
    ensures a == b
  {
    SignVisible(a);
    SignVisible(b);
    if a < 0 {
      assert IntToString(a)[1..] == NatToString(-a);
      assert IntToString(b)[1..] == NatToString(-b);
      NatToStringInjective(-a, -b);
    } else {
      NatToStringInjective(a, b);
    }
  }

  lemma {:induction false} SignVisible(n: int)
    ensures IntToString(n)[0] == '-' <==> n < 0
  {
    if n >= 0 {
      assert IsDigit(NatToString(n)[0]);
    }
  }

  /** `planes.find(p => p.id.toString() === planId)`: the first plan whose id
      prints as `planId`, if any. */
  function FindPlan(planes: seq<Plan>, planId: string): (r: Option<Plan>)
    ensures r.None? <==> forall j :: 0 <= j < |planes| ==> IntToString(planes[j].id) != planId
    ensures r.Some? ==> exists i: nat :: FirstWithId(planes, planId, i) && planes[i] == r.value
    decreases |planes|
  {
    if |planes| == 0 then None
    else if IntToString(planes[0].id) == planId then Some(planes[0])
    else
      var r := FindPlan(planes[1..], planId);
      FindPlanShift(planes, planId, r);
      r
  }

  lemma {:induction false} FindPlanShift(planes: seq<Plan>, planId: string, r: Option<Plan>)
    requires |planes| > 0 && IntToString(planes[0].id) != planId
    requires r.Some? ==> exists i: nat :: FirstWithId(planes[1..], planId, i) && planes[1..][i] == r.value
    ensures r.Some? ==> exists i: nat :: FirstWithId(planes, planId, i) && planes[i] == r.value
  {
    if r.Some? {
      var i: nat :| FirstWithId(planes[1..], planId, i) && planes[1..][i] == r.value;
      assert planes[i + 1] == r.value;
      assert forall j :: 1 <= j < i + 1 ==> planes[j] == planes[1..][j - 1];
      assert FirstWithId(planes, planId, i + 1);
    }
  }

  /** Plan `i` is the first whose id prints as `planId`. */
  predicate FirstWithId(planes: seq<Plan>, planId: string, i: nat)
  {
    i < |planes| && IntToString(planes[i].id) == planId &&
    forall j :: 0 <= j < i ==> IntToString(planes[j].id) != planId
  }

  /** `nombrePlan`: the chosen plan's name, or `No seleccionado`. */
  function PlanName(planes: seq<Plan>, planId: string): (r: string)
    ensures r != "No seleccionado" ==>
      exists i :: 0 <= i < |planes| && IntToString(planes[i].id) == planId && planes[i].nombre == r
  {
    match FindPlan(planes, planId)
    case Some(p) => p.nombre
    case None => "No seleccionado"
  }

  /** Choosing a plan's option records that plan's name when no earlier plan
      shares its id; the empty placeholder option records `No seleccionado`. */
  lemma {:induction false} PlanNameOfOption(planes: seq<Plan>, i: nat)
    requires i < |planes|
    requires forall j :: 0 <= j < i ==> planes[j].id != planes[i].id
    ensures PlanName(planes, IntToString(planes[i].id)) == planes[i].nombre
    ensures PlanName(planes, "") == "No seleccionado"
  {
    var planId := IntToString(planes[i].id);
    var r := FindPlan(planes, planId);
    var k: nat :| FirstWithId(planes, planId, k) && planes[k] == r.value;
    IntToStringInjective(planes[k].id, planes[i].id);
  }

  /** `pagarAltiro ? 'activo' : 'contactar'` */
  function InitialStatus(pagarAltiro: bool): (r: Gestion.Status)
    ensures r == Gestion.Status.Activo <==> pagarAltiro
    ensures r == Gestion.Status.Contactar <==> !pagarAltiro
  {
    if pagarAltiro then Gestion.Activo else Gestion.Contactar
  }

  /** The form's state. */
  datatype Form = Form(nombreDueno: string, nombreLocal: string, correo: string, telefono: string, planId: string)

  /** The row `handleSubmit` inserts into `dueño_local`. */
  datatype NewOwner = NewOwner(nombreDueno: string, nombreLocal: string, correo: string, telefono: string, plan: string, estado: string)

  function SignupRow(form: Form, planes: seq<Plan>, pagarAltiro: bool): (r: NewOwner)
    ensures r.estado == Gestion.Status.Activo.Label() <==> pagarAltiro
    ensures r.estado == Gestion.Status.Contactar.Label() <==> !pagarAltiro
    ensures r.telefono == StoredPhone(form.telefono)
    ensures r.plan == PlanName(planes, form.planId)
    ensures (r.nombreDueno, r.nombreLocal, r.correo) == (form.nombreDueno, form.nombreLocal, form.correo)
  {
    NewOwner(form.nombreDueno, form.nombreLocal, form.correo, StoredPhone(form.telefono),
      PlanName(planes, form.planId), InitialStatus(pagarAltiro).Label())
  }

  /** The row as the admin panel reads it back, under the id the database gave it. */
  function AsStored(n: NewOwner, id: int): Gestion.Owner
  {
    Gestion.Owner(id, Some(n.nombreLocal), Some(n.nombreDueno), n.correo, n.telefono, n.plan, n.estado)
  }

  /** A new sign-up whose e-mail no business row carries yet is listed in the
      admin panel under `activo` when the owner chose to pay now and under
      `contactar` otherwise. */
  lemma {:induction false} NewOwnerListedUnderItsTab(form: Form, planes: seq<Plan>, pagarAltiro: bool, id: int,
                                  owners: seq<Gestion.Owner>, infos: seq<Gestion.LocalInfo>, i: nat)
    requires i < |owners| && owners[i] == AsStored(SignupRow(form, planes, pagarAltiro), id)
    requires forall j :: 0 <= j < |infos| ==> infos[j].correo != form.correo
    ensures owners[i] in Gestion.TabFilter(Gestion.Sync(owners, Gestion.KeyedBy(infos, Gestion.EstadoOf)),
                                           Gestion.Only(InitialStatus(pagarAltiro)))
  {
    var synced := Gestion.Sync(owners, Gestion.KeyedBy(infos, Gestion.EstadoOf));
    Gestion.SyncFromBusinesses(owners, infos, i);
    assert synced[i] == owners[i];
    Gestion.TabFilterSpec(synced, Gestion.Only(InitialStatus(pagarAltiro)));
  }
}
