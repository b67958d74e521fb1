# Agéndalo: data shaping in the admin panel, the directory and the sign-up form

This project models the logic of three pages of the Agéndalo booking site in
Dafny. Each piece only reshapes data: it turns database rows into what the
page shows, or form input into the row the page stores.

- **Admin moderation panel** (`app/gestion1/PanelGestion.tsx`). It reads
  every owner (`dueño_local`) and every business (`locales`). It builds
  per-e-mail maps of business status and banner. It overrides each owner's
  status with the status of their business. It counts owners per status,
  filters by tab and by a case-insensitive name search, and offers status
  moves among `contactar | activo | standby | papelera`. A move goes through
  a confirmation step before `locales` is updated. The panel also derives
  each business's public slug. The page state is the class
  `Gestion.PanelGestion`. The `forEach` that fills the two maps is the method
  `Gestion.BuildMaps`, proved against the function `Gestion.KeyedBy`.
- **Public directory** (`app/page.tsx`). It splits each business's
  comma-separated categories into trimmed tags, with `General` when there
  are none. It de-duplicates the tags in first-occurrence order behind a
  leading `Todos` chip. It filters businesses by category and by name, and
  labels each card with its first category.
- **Owner sign-up form** (`app/negocios/page.tsx`). It reduces the phone
  field to at most eight digits and prefixes `+569`. It resolves the chosen
  plan's name and picks the initial status from the pay-now flag.

Database query results are parameters. The `locales` update is the function
`Gestion.SetStatusByOwner` on the table's rows. A database value that may be
missing is read with JavaScript's `||`, where missing and empty behave alike,
so it is modelled as the empty string. The business and owner names are read
with `?.`, which tells missing from empty, so they are `Option<string>`.

Behaviour of the code worth knowing, each proved:

- A status move is written only to `locales` rows that carry the owner's
  e-mail. For an owner with no such row the update changes nothing, and the
  panel goes on showing the owner's own status (`Gestion.MoveWithoutBusinessIsLost`).
- A business tagged `Todos` produces a second `Todos` chip
  (`Directory.TodosTagRepeats`).
- The owner sign-up form enforces no minimum phone length. Fewer than eight
  digits are accepted and stored (`Signup.SanitizeFixpoint`).

## Model

| member | source | states |
|---|---|---|
| `Strings.JoinSplit` | app/page.tsx:56 | joining the pieces of `split(',')` with `,` gives back the string |
| `Strings.SplitJoin` | app/page.tsx:56 | splitting the join of comma-free pieces gives back the pieces (the other half of the round trip) |
| `Strings.Trim` | app/page.tsx:56 | `trim()` returns the block of its input that is left after removing white space only, at both ends, and that block neither starts nor ends with white space |
| `Gestion.KeyedBy` | app/gestion1/PanelGestion.tsx:69-75 | the maps filled by `forEach` never have the empty e-mail as a key. Its full meaning is in `KeyedByKeys` and `KeyedByLastWins` |
| `Gestion.KeyedByKeys` | app/gestion1/PanelGestion.tsx:69-75 | an e-mail is a key of the status/banner map iff it is non-empty and some business carries it; businesses with empty `correo_dueño` are skipped |
| `Gestion.KeyedByLastWins` | app/gestion1/PanelGestion.tsx:70-74 | when several businesses share an e-mail, the map holds the value of the last one |
| `Gestion.BuildMaps` | app/gestion1/PanelGestion.tsx:66-75 | the `forEach` loop fills `mapaBanners` and `mapaEstados` exactly as the last-wins maps over all businesses |
| `Gestion.Sync` | app/gestion1/PanelGestion.tsx:80-84 | `datosSincronizados` has one entry per owner. What each entry holds is in `SyncFromBusinesses` |
| `Gestion.SyncFromBusinesses` | app/gestion1/PanelGestion.tsx:80-84 | the synced list has the owners' length and order, and only `estado` changes. An owner takes the status of the last business with its e-mail when that status is non-empty, otherwise keeps its own. An owner with no such business keeps its own |
| `Gestion.CountsOf` | app/gestion1/PanelGestion.tsx:86-92 | `todos` is the number of owners and no status count exceeds it. Each count is tied to its tab in `CountMatchesTab` |
| `Gestion.CountsBound` | app/gestion1/PanelGestion.tsx:86-92 | the four status counts sum to at most `todos` |
| `Gestion.CountMatchesTab` | app/gestion1/PanelGestion.tsx:86-92 | each tab's counter equals the length of the list that tab shows (`todos` = whole list) |
| `Gestion.TabFilter` | app/gestion1/PanelGestion.tsx:96 | the tab's list is no longer than the synced list and holds only its items. The exact contents are in `TabFilterSpec` |
| `Gestion.TabFilterSpec` | app/gestion1/PanelGestion.tsx:96 | tab `todos` yields the whole list. Any other tab yields exactly the items with that `estado`, as an order-preserving sub-list |
| `Gestion.Search` | app/gestion1/PanelGestion.tsx:101-104 | keeps an item iff its lower-cased `nombre_local` or `nombre_dueño` is present and contains the lower-cased query. The result is an order-preserving sub-list |
| `Gestion.SearchEmptyQuery` | app/gestion1/PanelGestion.tsx:101-104 | an empty query keeps exactly the items having at least one of the two names, and keeps all of them when every item has one |
| `Gestion.Offered` | app/gestion1/PanelGestion.tsx:224-232 | no offered move targets the current status. From `papelera` only Restaurar is offered. Ocultar iff `activo`. Activar iff neither `activo` nor `papelera`. Contactar iff neither `contactar` nor `papelera`. Exactly one of Papelera/Restaurar |
| `Gestion.MovesBetweenStatuses` | app/gestion1/PanelGestion.tsx:224-232 | one move leads from status A to status B iff A ≠ B, `standby` is entered only from `activo`, and `papelera` leads only to `contactar` |
| `Gestion.SetStatusByOwner` | app/gestion1/PanelGestion.tsx:114 | the update keeps the number of `locales` rows. Which rows and fields change is in `SetStatusByOwnerSpec` |
| `Gestion.SetStatusByOwnerSpec` | app/gestion1/PanelGestion.tsx:114 | the update sets `estado` on exactly the rows whose `correo_dueño` matches and leaves every other field and row unchanged |
| `Gestion.MoveTakesEffect` | app/gestion1/PanelGestion.tsx:110-116 | after a confirmed move, the next sync shows the owner under the new status when a business row carries the owner's e-mail |
| `Gestion.MoveWithoutBusinessIsLost` | app/gestion1/PanelGestion.tsx:114 | when no business row carries the e-mail, the update leaves the table unchanged |
| `Gestion.Slug` | app/gestion1/PanelGestion.tsx:206 | the slug contains no white space and is no longer than the name |
| `Gestion.CollapseSpaces` | app/gestion1/PanelGestion.tsx:206 | `replace(/\s+/g, '-')` leaves no white space, is no longer than its input, and keeps a leading non-space character |
| `Gestion.CollapseRun` | app/gestion1/PanelGestion.tsx:206 | a maximal run of white space between text that does not end in white space and text that does not start with it becomes exactly one `-`, and each side is collapsed on its own |
| `Gestion.SlugRun` | app/gestion1/PanelGestion.tsx:206 | the slug of `u + run + v` is the slug of `u`, one `-`, and the slug of `v`. With `CollapseSpacesNoSpace` this fixes the slug of every name |
| `Gestion.SlugIdempotent` | app/gestion1/PanelGestion.tsx:206 | the slug of a slug is itself |
| `Gestion.CollapseSpacesNoSpace` | app/gestion1/PanelGestion.tsx:206 | `replace(/\s+/g, '-')` leaves text without white space unchanged |
| `Gestion.SlugNoDoubleDash` | app/gestion1/PanelGestion.tsx:206 | for a name without `-`, no two dashes of the slug are adjacent, so no run of white space gave more than one dash |
| `Gestion.SlugKeepsText` | app/gestion1/PanelGestion.tsx:206 | for a name without `-`, the slug minus its dashes is the lower-cased name minus its white space |
| `Gestion.PanelGestion.constructor` | app/gestion1/PanelGestion.tsx:23-34 | initial state: tab `todos`, empty lists and maps, zero counts, loading, nothing pending |
| `Gestion.PanelGestion.FetchDatos` | app/gestion1/PanelGestion.tsx:51-99 | with owners: counts and list come from the synced owners filtered by the current tab, and banners come from the business rows when present. Without owners only the loading flag changes |
| `Gestion.PanelGestion.SelectTab` | app/gestion1/PanelGestion.tsx:36-39 | clicking the current tab button (line 164) changes nothing, because the `[tab]` effect does not run. Clicking another tab stores it and refetches: the counts, the new tab's list and the banners are as after `FetchDatos` |
| `Gestion.PanelGestion.SetBusqueda` | app/gestion1/PanelGestion.tsx:154 | the search box stores the query |
| `Gestion.PanelGestion.DatosFiltrados` | app/gestion1/PanelGestion.tsx:101-104 | the shown list is the order-preserving sub-list of the tab's list whose names match the query |
| `Gestion.PanelGestion.SolicitarCambio` | app/gestion1/PanelGestion.tsx:106-108 | requesting a move records the item and the target status as pending |
| `Gestion.PanelGestion.Cancelar` | app/gestion1/PanelGestion.tsx:245 | Cancelar clears the pending move and changes nothing else |
| `Gestion.PanelGestion.EjecutarCambio` | app/gestion1/PanelGestion.tsx:110-118 | with nothing pending, nothing changes. Otherwise only the pending owner's rows get the new status (when the update is applied), and the pending move is cleared unless the call throws |
| `Directory.TagsOfNoRubro` | app/page.tsx:55-57 | a business with missing or empty `rubro` contributes exactly `["General"]` |
| `Directory.TagsSpec` | app/page.tsx:55-57 | each tag is the trimmed comma piece at its position, and is a comma-free block of the category text |
| `Directory.Tags` | app/page.tsx:55-57 | a business yields one tag per comma piece of its `rubro` (or of `General`), at least one. Contents are in `TagsSpec` and `TagsOfNoRubro` |
| `Directory.TodosLosRubros` | app/page.tsx:55-57 | the flattened list has at least one tag per business. Membership is in `TodosLosRubrosSpec` |
| `Directory.TodosLosRubrosSpec` | app/page.tsx:55-57 | a tag is in `todosLosRubros` iff some business produced it |
| `Directory.RubrosUnicos` | app/page.tsx:59 | the chip list starts with `Todos`, and after it no tag appears twice |
| `Directory.RubrosUnicosSpec` | app/page.tsx:55-59 | the chips after `Todos` are exactly the tags of all businesses, in order of first occurrence |
| `Directory.TodosTagRepeats` | app/page.tsx:59 | a business tagged `Todos` makes `Todos` appear again after the leading chip |
| `Lists.Dedup` | app/page.tsx:59 | `new Set` keeps every element, adds none, and repeats none. First-occurrence order is in `DedupFirstOccurrenceOrder` |
| `Directory.Keep` | app/page.tsx:63-70 | with `Todos` selected and empty search text every business passes. Its exact condition is used in `LocalesFiltrados` |
| `Directory.LocalesFiltrados` | app/page.tsx:61-71 | a business is kept iff (selection is `Todos` or its lower-cased `rubro`, default `General`, contains the lower-cased selection) and its lower-cased name contains the lower-cased search. The result is an order-preserving sub-list |
| `Directory.ShowAllWhenUnfiltered` | app/page.tsx:67-69 | with `Todos` selected and empty search text every business is kept |
| `Directory.ChipShowsItsBusinesses` | app/page.tsx:63-67 | selecting any tag of a business shows that business, given the name search matches |
| `Directory.CardLabel` | app/page.tsx:193 | the card label is the part of `rubro` (or `General`) before its first comma, or the whole text when there is no comma |
| `Directory.CardLabelIsFirstTag` | app/page.tsx:193 | trimming the card label gives the business's first tag |
| `Signup.SanitizePhone` | app/negocios/page.tsx:55 | the phone keeps only `0`-`9` and at most 8 characters. It is an order-preserving sub-list of the input and the first min(8, #digits) of its digits |
| `Signup.SanitizePhoneIdempotent` | app/negocios/page.tsx:55 | sanitising a sanitised phone returns it unchanged |
| `Signup.SanitizeFixpoint` | app/negocios/page.tsx:55 | the sanitiser leaves a value unchanged iff it is all digits and at most 8 long |
| `Signup.StoredPhone` | app/negocios/page.tsx:64 | the stored phone is `+569` followed by the digits |
| `Signup.StoredPhoneShape` | app/negocios/page.tsx:64 | the stored phone starts with `+569`, then only digits, at most 12 characters |
| `Signup.IntToStringInjective` | app/negocios/page.tsx:51 | distinct plan ids print differently, so comparing `id.toString()` compares ids |
| `Signup.FindPlan` | app/negocios/page.tsx:51 | `find` returns the first plan whose id prints as `planId`, and nothing iff no plan's does |
| `Signup.PlanName` | app/negocios/page.tsx:63 | `nombrePlan` is either `No seleccionado` or the name of a plan whose id prints as the selected value |
| `Signup.PlanNameOfOption` | app/negocios/page.tsx:63 | choosing a plan's option records that plan's name (first plan with that id). The empty option records `No seleccionado` |
| `Signup.InitialStatus` | app/negocios/page.tsx:74 | the initial status is `activo` iff pay-now is set and `contactar` iff it is not |
| `Signup.SignupRow` | app/negocios/page.tsx:63-76 | the inserted row has `estado` `activo` iff pay-now is set, otherwise `contactar`. It also has the `+569` phone, the chosen plan's name (`nombrePlan`), and the form's names and e-mail |
| `Signup.NewOwnerListedUnderItsTab` | app/negocios/page.tsx:74 | a new owner whose e-mail no business carries is listed in the admin panel under `activo` when paying now, under `contactar` otherwise |

## Left out

- Supabase queries (`select`, `order`, `eq`, `insert`, `update`) are remote I/O. Their results are parameters, and the `locales` update is a function on rows.
- Strings.ToLower: maps only ASCII `A`-`Z`. JavaScript's `toLowerCase` also maps accented and other non-ASCII letters, so search, category matching and slugs are modelled for ASCII case only.
- Gestion.PanelGestion.EjecutarCambio: does not model the un-awaited `fetchDatos()` after the update. That call races with clearing the dialog, which is asynchrony. A caller runs `FetchDatos` separately.
- Gestion.PanelGestion.FetchDatos: the loading flag is modelled only by its final value. The intermediate `true` shows while the queries are pending.
- Gestion.SetStatusByOwner: an owner e-mail that is `null` and one that is empty are both the empty string here. `.eq('correo_dueño', …)` never matches a `null` row, but for an owner without an e-mail the model moves every business whose owner e-mail is missing or empty. Updates for owners with a non-empty e-mail are exact.
- An owner row whose `correo_dueño` is `null` is looked up in JavaScript under the key `"null"`/`"undefined"`. Likewise, a key such as `constructor` hits an inherited property. The model treats e-mails as plain strings.
- `nombre_local.toLowerCase()` in the slug and `local.nombre.toLowerCase()` in the directory throw when the name is missing. The model takes the name as a string.
- `obtenerUsuario`, `handleLogout`, and the password sign-in in `app/gestion1/page.tsx` are authentication I/O.
- `app/api/send/route.ts` is an e-mail template handed to an external mail client. It is not part of this model.
- The three `layout.tsx` files only set page metadata.
- UI-only behaviour is not modelled: the scroll listener, router navigation, `window.open`, alerts, CSS class choice, and the browser's `required` checks on form fields.
- Locale and clock formatting (`toLocaleString`, `toLocaleDateString`, the current year) is not modelled.
- The appointment-slot availability check and booking write are not in the modelled files, so they are not part of this model.
