# TableDeDispersion in Dafny

A model of `TableDeDispersion`, an open-addressing hash table. It uses
quadratic probing and lazy deletion (tombstones), together with
`HacheurIntQuad`, the probe function it is used with. The model keeps the
names of the C++ code, which are French.

- A table owns three things:
  - a vector of cells (`Cellule`: a key, a value and a state `Libre`, `Occupe` or `Efface`);
  - its `capacite`;
  - a `size_t` counter `cardinal`.
- `index(cle)` walks the probe sequence `(cle mod capacite + t*t) mod capacite`. It stops at the first cell that either:
  - holds the key, whatever that cell's state; or
  - is `Libre`.
- `inserer`, `rechercher` and `retirer` are built on `index`.
- `inserer` grows the table through `rehacher` once `capacite <= 2 * cardinal`. `rehacher` moves to `prochain_premier(2 * capacite)` cells and re-inserts every `Occupe` pair.
- `est_premier`, `prochain_premier` and `exponentiation` are static integer helpers.

Files:

- `premiers.dfy` (module `Premiers`):
  - `est_premier`, `prochain_premier` and `exponentiation` as methods that keep the loops of the C++ code;
  - each is proved against a ghost definition: primality, "least prime above n", and `a^e`.
- `hacheur.dfy` (module `Hacheur`):
  - the probe `Sonde` as a pure function, with its algebraic properties;
  - the small class `HacheurIntQuad`, which holds the modulus.
- `sondage.dfy` (module `Sondage`):
  - cells and error results;
  - the value-level meaning of `index` (`Tentative`, `Localise`);
  - the table invariant `Chaines`: every `Occupe` cell is the cell `index` finds for its key;
  - the abstraction `Paires`: the set of stored (key, value) pairs;
  - the lemmas showing how writing or tombstoning one cell changes both.
- `table_dispersion.dfy` (module `TableDispersion`):
  - the class `TableDeDispersion`, with fields `table: seq<Cellule>`, `capacite`, `cardinal` and the hasher object;
  - each operation is a method proved against `Localise`, `Paires` and `Present`;
  - `inserer` and `rehacher` are mutually recursive. Their recursion is proved to terminate without fuel: a rehash only starts when `capacite <= (2 * cardinal) mod 2^64`, and each rehash more than doubles the capacity.
- `scenarios.dfy` (module `Scenarios`):
  - the scenarios of the test suite, replayed on the model. Each scenario states the exact outcome its test expects;
  - two round trips that hold on any valid table.

Where the code's own documentation and its behaviour differ, the model follows the behaviour:

- **`effacer`.** Its doc comment says the table ends up empty (tableDispersion.h:193). The loop takes each cell by value, so only the counter is reset (see Findings).
- **Prime capacity.** The comment on `rehacher` says the capacity is always prime (tableDispersion.h:150). The constructor accepts any capacity up to 10000 (13 by default, but 10 is accepted). Only the capacities chosen by `rehacher` are prime.
- **Capacity ceiling.** The constructor's `@except` names the ceiling `Capacite_Maximale` (tableDispersion.h:121), and the check is made only there (tableDispersion.h:126). When the table grows, `rehacher` does not check it (tableDispersion.h:162).
- **`cardinal`.** It is not the number of `Occupe` cells:
  - every re-insertion during `rehacher` increments it again, on top of the count it already held;
  - it is a `size_t` that wraps, so `retirer` after `effacer` takes it from 0 to 2^64 - 1.

  So the invariant bounds `cardinal` only by the `size_t` range; the contracts of `inserer`, `retirer`, `effacer` and `rehacher` give its value.
- **Cell layout.** Every cell keeps its key and value in all three states, and `index` compares the stale keys of `Efface` and `Libre` cells. The model therefore keeps the record.

## Model

| member | source | states |
|---|---|---|
| Premiers.EstPremier | tableDispersion.h:228-232 | returns true exactly when n < 2 or n is prime: trial division that stops at the first i with i*i > n decides primality, and 0 and 1 pass because the loop never runs |
| Premiers.RacineSuffit | tableDispersion.h:230 | a number from 2 on with no divisor in [2, i), where n < i*i, is prime (why trial division may stop at the square root) |
| Premiers.ProchainPremier | tableDispersion.h:209-217 | for an even n > 0 the result is the least prime strictly above n; for n = 0 it is 1; evenness is the documented requirement, and the odd-step search terminates |
| Premiers.PremierAuDela | tableDispersion.h:215 | there is a prime above every n (a prime factor of n! + 1), which bounds the search of prochain_premier |
| Premiers.PairNonPremier | tableDispersion.h:215 | the even numbers the search steps over (from 4 on) are not prime |
| Premiers.SautImpair | tableDispersion.h:215 | stepping from an odd non-prime i to i + 2 skips no prime |
| Premiers.Exponentiation | tableDispersion.h:243-252 | the square-and-multiply loop returns a^e, and 1 when e = 0 |
| Premiers.PuissancePas | tableDispersion.h:247-250 | one step of the loop keeps r * x^b unchanged: a^b = (a if b is odd else 1) * (a*a)^(b/2) |
| Premiers.PuissanceSomme | tableDispersion.h:244-252 | a^(m+n) = a^m * a^n |
| Premiers.PuissanceCarre | tableDispersion.h:249 | squaring the base halves the exponent: (a*a)^k = a^(2k) |
| Hacheur.Sonde | HacheurIntQuad.cpp:11-14 | the probe is strictly below the capacity, and attempt 0 gives the home cell cle mod capacite |
| Hacheur.SondeCongruence | HacheurIntQuad.cpp:13 | keys congruent modulo the capacity have identical probe sequences |
| Hacheur.SondePeriodique | HacheurIntQuad.cpp:13 | the probe sequence is periodic in the attempt with period capacite |
| Hacheur.SondeSymetrique | HacheurIntQuad.cpp:13 | attempts t and capacite - t probe the same cell, so at most capacite / 2 + 1 attempts reach distinct cells |
| Hacheur.HacheurIntQuad.constructor | HacheurIntQuad.cpp:16-18 | the hasher stores the given capacity |
| Hacheur.HacheurIntQuad.Reinitialiser | HacheurIntQuad.cpp:7-9 | the modulus becomes the new capacity, so every later probe is taken modulo it |
| Hacheur.HacheurIntQuad.Appliquer | HacheurIntQuad.cpp:11-14 | operator() only reads the hasher; it is the probe under the current modulus and is below it |
| Sondage.Tentative | tableDispersion.h:180-188 | the attempt where probing stops is the first attempt, below 1000, whose cell holds the key or is Libre; every earlier attempt lands on a non-Libre cell with another key; None when all 1000 attempts are such cells |
| Sondage.Localise | tableDispersion.h:179-190 | index(cle): a position below capacite whose cell holds cle or is Libre, reached at some attempt below 1000 after attempts that all landed on non-Libre cells with other keys; SondageEpuise exactly when none of attempts 0..999 stops |
| Sondage.TentativeCadre | tableDispersion.h:183 | where probing stops depends only on the cells probed up to that attempt |
| Sondage.LocalisePresent | tableDispersion.h:92 | under the invariant, a key is stored exactly when index finds an Occupe cell, and that cell then holds the key |
| Sondage.PaireLocalisee | tableDispersion.h:91-92 | every stored pair sits in the cell index finds for its key |
| Sondage.PairesFonctionnelles | tableDispersion.h:72 | under the invariant a key is stored with one value only |
| Sondage.PresentPaire | tableDispersion.h:92 | a key is stored exactly when some stored pair carries it |
| Sondage.TableVide | tableDispersion.h:125 | value-initialised cells store nothing and satisfy the invariant |
| Sondage.PairesEcriture | tableDispersion.h:73-75 | turning a non-Occupe cell Occupe adds exactly its pair |
| Sondage.EcritureLocalise | tableDispersion.h:71-75 | after the write, index still stops for the key at the written cell |
| Sondage.EcritureAutreCle | tableDispersion.h:71-75 | the write does not move where index stops for the key of any other cell that index found |
| Sondage.InsertionChaines | tableDispersion.h:71-75 | writing (cle, valeur, Occupe) at index(cle) keeps the invariant and adds exactly (cle, valeur) to the stored pairs |
| Sondage.RetraitChaines | tableDispersion.h:107-109 | marking a key's Occupe cell Efface keeps the invariant, leaves the key stored nowhere, and removes exactly its pair |
| Sondage.PairesAjout | tableDispersion.h:167 | appending a cell adds its pair when it is Occupe and nothing otherwise |
| Sondage.PairesPrefixe | tableDispersion.h:167 | the pairs of the cells re-inserted so far grow one cell at a time and end as all the old pairs |
| Sondage.AbsentDesPrecedents | tableDispersion.h:167 | during re-insertion the next Occupe key is not yet stored, so inserer cannot refuse it |
| TableDispersion.Incremente | tableDispersion.h:76 | ++cardinal on a size_t stays below 2^64 and wraps to 0 |
| TableDispersion.Decremente | tableDispersion.h:110 | --cardinal on a size_t undoes an increment, wrapping 0 to 2^64 - 1 |
| TableDispersion.Double | tableDispersion.h:77 | 2 * cardinal on a size_t: stays below 2^64 and, for a counter below 2^64, is 2n or 2n - 2^64 when the product overflows |
| TableDispersion.CompteurPas | tableDispersion.h:76-77 | one re-insertion of rehacher: while the capacity is unchanged the counter has risen once per Occupe cell re-inserted and none reached capacite <= 2 * cardinal; once the capacity changed, one of them did |
| TableDispersion.TableDeDispersion.constructor | tableDispersion.h:124-125 | capacite value-initialised cells, cardinal 0, a fresh hasher with that modulus, no stored pair |
| TableDispersion.Construire | tableDispersion.h:123-127 | the constructor with its check: fails with CapaciteInvalide exactly when the capacity exceeds 10000, otherwise the empty table above |
| TableDispersion.TableDeDispersion.Index | tableDispersion.h:179-190 | the probe loop returns Localise(table, cle), including the failure at attempt 1000 |
| TableDispersion.TableDeDispersion.Rechercher | tableDispersion.h:90-95 | succeeds exactly when the key is stored and then returns its stored value; otherwise Absente, or SondageEpuise when index fails |
| TableDispersion.TableDeDispersion.Inserer | tableDispersion.h:70-78 | refuses with DejaPresente exactly when the key is stored, leaving the table, capacity and count unchanged; on success the stored pairs gain exactly (cle, valeur), 2 * cardinal < capacite, and any growth leaves a prime above twice the old capacity; an insertion that reaches capacite <= 2 * (cardinal + 1), counted on a size_t, rehashes: the capacity more than doubles, becoming prochain_premier(2 * capacite) or (nested rehash) above twice it, and when every re-insertion succeeds and the capacity is exactly that prime, cardinal is cardinal + 1 plus the number of Occupe cells after the write; SondageEpuise is returned only when the assert of index trips, for cle itself or for a pair being re-inserted; below that threshold it writes (cle, valeur, Occupe) at index(cle), increments cardinal and keeps the capacity |
| TableDispersion.TableDeDispersion.Retirer | tableDispersion.h:106-113 | succeeds exactly when the key is stored, marking its cell Efface and decrementing cardinal; afterwards the key is not stored and exactly its pair is gone; otherwise nothing changes (Absente, or SondageEpuise) |
| TableDispersion.TableDeDispersion.Effacer | tableDispersion.h:199-202 | as written: cardinal becomes 0 and the cells are left as they were |
| TableDispersion.TableDeDispersion.Vider | tableDispersion.h:192-202 | as documented: every cell becomes Libre, cardinal 0, capacity unchanged, nothing stored |
| TableDispersion.TableDeDispersion.Rehacher | tableDispersion.h:157-168 | the new capacity is prime and more than twice the old: c = prochain_premier(2 * capacite), or above twice c after a nested rehash; when every re-insertion succeeds, it is exactly c if and only if no re-insertion reaches capacite <= 2 * cardinal, and then cardinal is the old cardinal plus the number of Occupe cells, mod 2^64 (each pair counted again); no Efface cell remains; on success the stored pairs are exactly the old ones, and it fails (SondageEpuise) only when the assert of index trips for the key of one of the old pairs in the new cells |
| TableDispersion.TableDeDispersion.Reinserer | tableDispersion.h:167 | re-inserting the old cells into an empty table yields exactly their stored pairs, without tombstones, with a prime capacity; the capacity is unchanged exactly when no re-insertion reaches the threshold, and then cardinal has risen by the number of Occupe old cells; a failure means the assert of index trips for the key of one of the old pairs |
| TableDispersion.TableDeDispersion.ReinsererCellule | tableDispersion.h:167 | one turn of the re-insertion loop adds exactly the pair of an Occupe old cell and nothing for other cells; it leaves capacity and cardinal alone for other cells, and for an Occupe cell increments cardinal and rehashes exactly when 2 * cardinal reaches the capacity; a failure means the assert of index trips for the key of a pair re-inserted so far |
| Scenarios.ExemplesExponentiation | tests/tests_table_hachage.cpp:11-16 | exponentiation gives 1, 9 and 67108864 on (2, 0), (3, 2) and (4, 13) |
| Scenarios.Premier10007 | tests/tests_table_hachage.cpp:29 | 10007 is prime |
| Scenarios.ExemplesEstPremier | tests/tests_table_hachage.cpp:18-30 | est_premier is true on 2, 3, 5, 7, 11, 13, 17, 19, 23 and 10007 |
| Scenarios.ExemplesComposes | tests/tests_table_hachage.cpp:32-38 | est_premier is false on 4, 15, 9837 and 10005 |
| Scenarios.Premier9923 | tests/tests_table_hachage.cpp:44 | 9923 is prime |
| Scenarios.ExemplesProchainPremier | tests/tests_table_hachage.cpp:40-45 | prochain_premier gives 5, 23 and 9923 on 4, 20 and 9908 |
| Scenarios.EtapeFixture | tests/tests_table_hachage.cpp:51-56 | each fixture key is absent when inserted; 1, 2 and 3 stop on their home cells, while 14 probes cells 1 and 2 and stops on cell 5 |
| Scenarios.PairesFixture | tests/tests_table_hachage.cpp:51-56 | the fixture stores exactly (1, "1"), (2, "2"), (3, "3") and (14, "14") |
| Scenarios.InsererEtape | tests/tests_table_hachage.cpp:51-56 | each fixture insertion writes its cell and increments cardinal without rehashing |
| Scenarios.Fixture | tests/tests_table_hachage.cpp:47-57 | the default table after the four insertions: capacity 13, cardinal 4 and the four pairs |
| Scenarios.SondagesFixture | tests/tests_table_hachage.cpp:66-69 | in the fixture, index(4) is its Libre home cell 4, and index(66) probes cells 1, 2 and 5 and stops on the Libre cell 10 |
| Scenarios.AbsentsFixture | tests/tests_table_hachage.cpp:66-69 | neither 4 nor 66 is stored in the fixture |
| Scenarios.RechercherPresent | tests/tests_table_hachage.cpp:59-64 | rechercher returns "1", "2", "3" and "14" for keys 1, 2, 3 and 14 |
| Scenarios.RechercherAbsent | tests/tests_table_hachage.cpp:66-69 | rechercher(4) and rechercher(66) fail with Absente |
| Scenarios.RetirerPresent | tests/tests_table_hachage.cpp:71-75 | after retirer(1), rechercher(1) fails with Absente while rechercher(14) still returns "14" |
| Scenarios.RetirerEfface | tests/tests_table_hachage.cpp:77-80 | a second retirer(1) fails with Absente |
| Scenarios.RetirerAbsent | tests/tests_table_hachage.cpp:82-84 | retirer(66) fails with Absente |
| Scenarios.EffacerGardeLesCles | tableDispersion.h:199-202 | after effacer on the fixture, rechercher(1) still returns "1", and retirer(1) succeeds, taking cardinal to 2^64 - 1 |
| Scenarios.ViderOublieLesCles | tableDispersion.h:192-202 | after the documented clear, rechercher(1) and retirer(1) fail with Absente and cardinal stays 0 |
| Scenarios.InsererPuisRechercher | tableDispersion.h:70-95 | after a successful inserer(cle, valeur), rechercher(cle) returns valeur, whether or not a rehash happened; a refused insertion leaves the old value found |
| Scenarios.RetirerPuisRechercher | tableDispersion.h:90-113 | after a successful retirer(cle), rechercher(cle) and a second retirer(cle) both fail with Absente (index still stops on the tombstone), while every other stored pair is still found |

## Left out

- The initializer-list constructor (tableDispersion.h:139-147). It initialises `capacite` from itself, an indeterminate value, and leaves the vector empty. It also pairs every key with the first value. Its behaviour is undefined, so it is not modelled.
- Machine-word overflow in the helpers. The model uses unbounded integers for:
  - `a *= a` and `r *= a` in `exponentiation` (a `size_t`);
  - `i * i` in `est_premier` (an `int`);
  - `2 * capacite` in `rehacher` (the capacity passed to `prochain_premier`).

  Only `cardinal` is modelled as a wrapping `size_t`, because the table's behaviour depends on it.
- The `assert(tentative < 1000)` of `index` aborts the process. The model returns `Err(SondageEpuise)` instead, after attempts 0 to 999. The method contracts say how that error propagates. Each operation also stops where the abort would happen.
- Division by zero when the capacity is 0: the operations built on `index` require `0 < capacite`. The constructor itself accepts 0, as the code does.
- Genericity:
  - keys are fixed to `nat` and values to `string`;
  - the conversion of a negative `int` key to `size_t` is not modelled.
- Exceptions become `Result` values.
- Not modelled:
  - the type of each exception;
  - the bounds checks of `std::vector::at`, which cannot fail on positions below the capacity;
  - allocation;
  - the move semantics in `rehacher`.
- `rehacher` has a loop `for (auto cellule: table) cellule.etat = Libre` (tableDispersion.h:166). It assigns to copies of cells that `resize` has just value-initialised, so it changes nothing. It has no counterpart in the model.
- `cardinal` is not tied to the number of `Occupe` cells. Re-insertions during `rehacher` count every pair again, and `retirer` after `effacer` wraps it round. The model states its exact value only in the cases the contracts name.
- TableDispersion.TableDeDispersion.Rehacher: when a re-insertion rehashes again (a nested rehash), the final capacity is stated only as "prime, and above twice prochain_premier(2 * old capacity)" and `cardinal` only as "2 * cardinal below the capacity". Neither is given exactly in that case, nor when a re-insertion fails. A failure is stated only as "probing for the key of some old pair now fails", not which pair or what the cells then hold: the C++ code aborts at that point.
- TableDispersion.TableDeDispersion.Inserer: when the insertion rehashes, the new cells are stated only through the stored pairs, not cell by cell; after a nested rehash the capacity and `cardinal` are bounded as for `rehacher`, not given exactly.
- HacheurIntQuad.h holds only the declaration of the hasher. It is folded into `hacheur.dfy`.

## Findings

| source | as written | input that shows it | evidently intended | confidence | as-written member | corrected member |
|---|---|---|---|---|---|---|
| tableDispersion.h:199-202 | the loop of `effacer` takes each cell by value, so setting `etat = Libre` changes a copy; only `cardinal` is reset | the test fixture (keys 1, 2, 3, 14), then `effacer()`: `rechercher(1)` still returns "1", and `retirer(1)` succeeds and wraps `cardinal` from 0 to 2^64 - 1 | every cell becomes Libre (the loop taking cells by reference), so the table is empty, as its documentation says | not executed | Scenarios.EffacerGardeLesCles | TableDispersion.TableDeDispersion.Vider |
