# COP 16 routes and biodiversity sites — a Dafny model

This project models the logic inside the console application `Aplicacion.java`, written for COP 16 in Cali, Colombia. It has two halves.

- **Ecological routes.** A volunteer picks one of three walking routes. The route selector maps to a meeting point, a start time and an end time; an invalid selector maps to three empty strings. The volunteer then enters the number of participants and guides. The application adds them and reports how many 25-seat buses the walk needs, as `(total + 24) / 25` in Java `int` arithmetic.
- **Biodiversity sites.** A registry holds at most 30 sites in three parallel fixed-size arrays: name, department and area in hectares. A counter says how many are filled. Registering writes the next free slot, or refuses when the registry is full. A query tallies the sites per department and reports the department with the most sites. On a tie it reports the department registered first.

The project has four modules.

- `JavaInt` (`java_int.dfy`): 32-bit Java `int`. It covers wrap-around addition and division truncating toward zero.
- `Routes` (`routes.dfy`): the route table, the head count and the bus formula.
- `Tally` (`tally.dfy`): the pure reference for the department query. It defines:
  - the number of occurrences (`Count`);
  - the distinct departments in order of first registration (`Distinct`);
  - the counts of a list of keys (`CountsOf`);
  - one step of the tally scan (`AddToTally`);
  - what it means to be the leading department (`IsTop`).
- `Registry` (`registry.dfy`): the registry as a class over three arrays. Its methods are the registration and the two loops of the query, proved against the `Tally` functions.

The query is split into three methods, one per loop of the Java method, plus the method that calls them:
- `RecordDepartment` is the inner lookup loop, with its `break`;
- `BuildTally` is the outer counting loop;
- `LeadingEntry` is the strict-maximum scan;
- `TopDepartment` is the whole query, including the empty-registry check.

## Model

| member | source | states |
|---|---|---|
| JavaInt.Wrap | Aplicacion.java:159 | The 32-bit result is congruent to the mathematical value modulo 2^32, and equals it whenever that value is in `int` range |
| JavaInt.Add | Aplicacion.java:159 | Java `int` addition: equals the true sum when it is in range, otherwise differs from it by a multiple of 2^32 |
| JavaInt.Div | Aplicacion.java:185 | Java `int` division by a positive divisor truncates toward zero: the remainder has the sign of the dividend and is smaller in magnitude than the divisor |
| Routes.SelectRoute | Aplicacion.java:114-135 | Selectors 1, 2 and 3 give the listed meeting point, start time and end time; every other selector gives three empty strings |
| Routes.SelectRouteRejectsExactlyInvalid | Aplicacion.java:114-135 | The empty descriptor comes back exactly for an invalid selector; a valid selector never yields an empty field |
| Routes.TotalPeople | Aplicacion.java:154-160 | The head count is participants plus guides, under Java `int` wrap-around |
| Routes.BusesNeeded | Aplicacion.java:184-185 | For every total from 0 up to the largest `int` minus 24, the bus count is the ceiling of total/25: 25 seats per bus hold everyone, and one bus fewer would not |
| Routes.BusesNeededOverflow | Aplicacion.java:185 | For a total within 24 of the largest `int`, `total + 24` wraps and the reported bus count is negative |
| Routes.WalkBusesSeatEveryone | Aplicacion.java:154-185 | For non-negative participants and guides whose sum does not overflow, the buses reported for their total are the fewest that seat all of them |
| Tally.CountZero | Aplicacion.java:280-297 | A department has zero sites exactly when it was never registered |
| Tally.CountAppend | Aplicacion.java:280-297 | Registering one more site raises that department's count by one and no other count |
| Tally.Distinct | Aplicacion.java:280-297 | The distinct list is never longer than the list of registered departments |
| Tally.DistinctContains | Aplicacion.java:280-297 | A department is in the distinct list exactly when it was registered |
| Tally.DistinctNoDuplicates | Aplicacion.java:280-297 | No department appears twice in the distinct list |
| Tally.DistinctElements | Aplicacion.java:280-297 | Every registered department is listed, only registered departments are listed, and each is listed once |
| Tally.DistinctAppend | Aplicacion.java:292-296 | A new site extends the distinct list only when its department was not yet listed, and then at the end |
| Tally.FirstIndex | Aplicacion.java:284-290 | The lookup finds the first position that holds the department, and no earlier position holds it |
| Tally.FirstIndexAppend | Aplicacion.java:284-290 | Appending a site does not move the first position of a department already present |
| Tally.DistinctInFirstOccurrenceOrder | Aplicacion.java:275-297 | The distinct departments are listed in order of their first registration |
| Tally.CountsOfBump | Aplicacion.java:284-290 | A site of an already listed department bumps the count at that department's position and leaves every other count alone |
| Tally.CountsOfNew | Aplicacion.java:292-296 | A site of a new department keeps the existing counts and lists the department with count 1 |
| Tally.TallyStepListed | Aplicacion.java:284-290 | The scan step for a listed department keeps the list and bumps that department's count at its first listing |
| Tally.TallyStepNew | Aplicacion.java:292-296 | The scan step for a new department appends it to the list with count 1 |
| Tally.TallyExtend | Aplicacion.java:281-296 | One step of the scan keeps the tally exact: the tally of the sites seen so far becomes the tally of those sites plus the next one |
| Tally.SumCountsAppend | Aplicacion.java:280-297 | One more site adds to the total of the counts exactly the number of times its department is listed |
| Tally.CountInDistinct | Aplicacion.java:280-297 | Each registered department appears exactly once in the distinct list, and an unregistered one never |
| Tally.TallyTotal | Aplicacion.java:280-297 | The per-department counts add up to the number of registered sites |
| Tally.TopBounds | Aplicacion.java:300-308 | The leading department's count is at least 1 and at most the number of sites |
| Tally.TopUnique | Aplicacion.java:300-308 | The leading department and its count are unique: ties are broken by first registration |
| Tally.TopFromTally | Aplicacion.java:300-308 | A tally entry whose count is at least every count and strictly above every earlier count is the leading department |
| Tally.TopExampleMajority | Aplicacion.java:300-308 | With sites in Valle, Cauca, Valle, the leader is Valle with 2 sites |
| Tally.TopExampleTie | Aplicacion.java:300-308 | With one site in A and one in B, the tie goes to A, registered first, with 1 site |
| Registry.SiteRegistry.constructor | Aplicacion.java:14-18 | A fresh registry has three separate arrays of capacity 30, every slot empty (`""` for names and departments, 0 for areas), and no sites |
| Registry.SiteRegistry.Register | Aplicacion.java:243-261 | When not full, writes name, department and area at position `count`, leaves every other slot alone and raises the count by one. When full, changes nothing and reports the refusal. The count never exceeds 30 |
| Registry.SiteRegistry.RecordDepartment | Aplicacion.java:281-296 | The inner lookup loop performs exactly the scan step `AddToTally` on the listed departments and their counts |
| Registry.SiteRegistry.BuildTally | Aplicacion.java:275-297 | After the counting loop the listed departments are the distinct registered departments, each once, in order of first registration. Each count is that department's number of sites, the counts add up to the number of sites, and the list is no longer than the number of sites. Both tally arrays are newly allocated, as the Java locals are |
| Registry.SiteRegistry.LeadingEntry | Aplicacion.java:300-308 | The maximum scan returns the greatest count, never below 0, with the first entry that has it. It returns the empty name when no count is positive |
| Registry.SiteRegistry.TopDepartment | Aplicacion.java:269-311 | With no sites it reports none and builds no tally. Otherwise it reports the registered department with the most sites, at least 1, and among equals the one registered first |

## Left out

- The menus and their dispatch loops are not modelled, because they hold no logic beyond dispatch. These are `main`, `mostrarMenuPrincipal`, `gestionarLugaresBiodiversos` and `mostrarMenuGestionLugares`.
- All console output is left out, including `mostrarDetallesRuta` and the sentences printed by the bus and department reports. The query returns a `Report` value instead of printing it.
- All console input is left out. The values `Scanner` would read (selector, head counts, site data) become parameters. Abnormal termination on malformed input is library behaviour and is not modelled.
- The volunteer's name and ID in `iniciarRutas` are not modelled, because they are read and echoed with no logic.
- The weather check in `solicitarYVerificarCondicionesMeteorologicas` is not modelled, because it compares `float` readings.
- Routes.BusesNeeded: the ceiling property is stated only for totals from 0 to the largest `int` minus 24. Closer to the largest `int`, the Java addition wraps and the count is negative, as `BusesNeededOverflow` states. Negative totals, which the application does not reject, follow Java truncating division and no further property is claimed for them.
- Registry.SiteRegistry: the empty slots are `""` and `0`, where Java holds `null` and `0`. No operation reads a slot past the count, so the difference is not observable.
- The site and tally arrays are separate objects, as in Java. Aliasing between registries is not modelled, because the Java state is a single set of static fields.
