/**
  The scenarios of the C++ test suite, replayed on the model: the
  static helpers on the literal arguments of the tests, and the Tdh_test
  fixture (a default table holding 1, 2, 3 and 14) with the searches and
  removals made on it. Each method states the outcome its test expects.
*/
module Scenarios {
  import opened Premiers
  import opened Hacheur
  import opened Sondage
  import opened TableDispersion

  // ---------------------------------------------------------------------
  // The static helpers

  /** exponentiation(2, 0), (3, 2) and (4, 13). */
  method ExemplesExponentiation() returns (a: nat, b: nat, c: nat)
    ensures a == 1 && b == 9 && c == 67108864
  {
    a := Exponentiation(2, 0);
    b := Exponentiation(3, 2);
    c := Exponentiation(4, 13);
    PuissanceSomme(4, 6, 7);
    PuissanceSomme(4, 3, 3);
    PuissanceSomme(4, 3, 4);
  }

  lemma Premier10007()
    ensures Premier(10007)
  {
    assert SansDiviseur(10007, 95, 101);
    assert SansDiviseur(10007, 89, 101);
    assert SansDiviseur(10007, 83, 101);
    assert SansDiviseur(10007, 77, 101);
    assert SansDiviseur(10007, 71, 101);
    assert SansDiviseur(10007, 65, 101);
    assert SansDiviseur(10007, 59, 101);
    assert SansDiviseur(10007, 53, 101);
    assert SansDiviseur(10007, 47, 101);
    assert SansDiviseur(10007, 41, 101);
    assert SansDiviseur(10007, 35, 101);
    assert SansDiviseur(10007, 29, 101);
    assert SansDiviseur(10007, 23, 101);
    assert SansDiviseur(10007, 17, 101);
    assert SansDiviseur(10007, 11, 101);
    assert SansDiviseur(10007, 5, 101);
    assert SansDiviseur(10007, 2, 101);
    PremierParEssais(10007, 101);
  }

  lemma Premier9923()
    ensures Premier(9923)
  {
    assert SansDiviseur(9923, 94, 100);
    assert SansDiviseur(9923, 88, 100);
    assert SansDiviseur(9923, 82, 100);
    assert SansDiviseur(9923, 76, 100);
    assert SansDiviseur(9923, 70, 100);
    assert SansDiviseur(9923, 64, 100);
    assert SansDiviseur(9923, 58, 100);
    assert SansDiviseur(9923, 52, 100);
    assert SansDiviseur(9923, 46, 100);
    assert SansDiviseur(9923, 40, 100);
    assert SansDiviseur(9923, 34, 100);
    assert SansDiviseur(9923, 28, 100);
    assert SansDiviseur(9923, 22, 100);
    assert SansDiviseur(9923, 16, 100);
    assert SansDiviseur(9923, 10, 100);
    assert SansDiviseur(9923, 4, 100);
    assert SansDiviseur(9923, 2, 100);
    PremierParEssais(9923, 100);
  }

  /** est_premier holds of the primes listed by the test, 10007 included. */
  method ExemplesEstPremier() returns (r: seq<bool>)
    ensures r == [true, true, true, true, true, true, true, true, true, true]
  {
    PremierParEssais(2, 2);
    PremierParEssais(3, 2);
    PremierParEssais(5, 3);
    PremierParEssais(7, 3);
    PremierParEssais(11, 4);
    PremierParEssais(13, 4);
    PremierParEssais(17, 5);
    PremierParEssais(19, 5);
    PremierParEssais(23, 5);
    Premier10007();
    r := [];
    var ns := [2, 3, 5, 7, 11, 13, 17, 19, 23, 10007];
    var k := 0;
    while k < |ns|
      invariant k <= |ns| && |r| == k
      invariant forall j :: 0 <= j < k ==> r[j]
    {
      var b := EstPremier(ns[k]);
      r := r + [b];
      k := k + 1;
    }
  }

  /** est_premier fails on the composites of the test: 4, 15, 9837 = 3 * 3279, 10005 = 5 * 2001. */
  method ExemplesComposes() returns (r: seq<bool>)
    ensures r == [false, false, false, false]
  {
    var b4 := EstPremier(4);
    var b15 := EstPremier(15);
    var b9837 := EstPremier(9837);
    var b10005 := EstPremier(10005);
    assert Divise(2, 4) && Divise(3, 15) && Divise(3, 9837) && Divise(5, 10005);
    r := [b4, b15, b9837, b10005];
  }

  /** prochain_premier(4) == 5, prochain_premier(20) == 23, prochain_premier(9908) == 9923. */
  method ExemplesProchainPremier() returns (a: nat, b: nat, c: nat)
    ensures a == 5 && b == 23 && c == 9923
  {
    a := ProchainPremier(4);
    PremierParEssais(5, 3);
    b := ProchainPremier(20);
    PremierParEssais(23, 5);
    assert Divise(3, 21) && Divise(2, 22);
    c := ProchainPremier(9908);
    Premier9923();
    assert Divise(3, 9909) && Divise(2, 9910) && Divise(11, 9911) && Divise(2, 9912);
    assert Divise(23, 9913) && Divise(2, 9914) && Divise(5, 9915) && Divise(2, 9916);
    assert Divise(47, 9917) && Divise(2, 9918) && Divise(7, 9919) && Divise(2, 9920);
    assert Divise(3, 9921) && Divise(2, 9922);
  }

  // ---------------------------------------------------------------------
  // The Tdh_test fixture

  /** The keys and values the fixture inserts, and the cells they land on. */
  const Cles: seq<Cle> := [1, 2, 3, 14]
  const Valeurs: seq<Valeur> := ["1", "2", "3", "14"]
  const Positions: seq<nat> := [1, 2, 3, 5]

  /** The cells of a default table after the first k insertions of the fixture. */
  ghost function CellulesApres(k: nat): (t: seq<Cellule>)
    requires k <= 4
    ensures |t| == CapaciteDefaut
  {
    var c := seq(4, j requires 0 <= j < 4 => Cellule(Cles[j], Valeurs[j], Occupe));
    var t0 := seq(13, _ => CelluleVide);
    if k == 0 then t0
    else if k == 1 then t0[1 := c[0]]
    else if k == 2 then t0[1 := c[0]][2 := c[1]]
    else if k == 3 then t0[1 := c[0]][2 := c[1]][3 := c[2]]
    else t0[1 := c[0]][2 := c[1]][3 := c[2]][5 := c[3]]
  }

  /**
    Each insertion of the fixture finds its key absent and stops on a Libre
    cell: 1, 2 and 3 on their home cells, 14 (home cell 1) at attempt 2 on
    cell 5 after cells 1 and 2.
  */
  lemma EtapeFixture(k: nat)
    requires k < 4
    ensures !Present(CellulesApres(k), Cles[k])
    ensures Localise(CellulesApres(k), Cles[k]) == Ok(Positions[k])
    ensures CellulesApres(k + 1) == CellulesApres(k)[Positions[k] := Cellule(Cles[k], Valeurs[k], Occupe)]
  {
    var t := CellulesApres(k);
    if k == 3 {
      assert Sonde(14, 0, 13) == 1 && Sonde(14, 1, 13) == 2 && Sonde(14, 2, 13) == 5;
      assert Tentative(t, 14, 2) == Some(2);
      assert Tentative(t, 14, 0) == Some(2);
    } else {
      assert Tentative(t, Cles[k], 0) == Some(0);
    }
  }

  lemma PairesFixture()
    ensures Paires(CellulesApres(4)) == {(1, "1"), (2, "2"), (3, "3"), (14, "14")}
  {
    var t := CellulesApres(4);
    assert (1, "1") == (t[1].cle, t[1].valeur);
    assert (2, "2") == (t[2].cle, t[2].valeur);
    assert (3, "3") == (t[3].cle, t[3].valeur);
    assert (14, "14") == (t[5].cle, t[5].valeur);
  }

  /** The k-th insertion of the fixture: it writes the key's home or probed cell and does not rehash. */
  method InsererEtape(t: TableDeDispersion, k: nat)
    requires k < 4 && t.Valid()
    requires t.capacite == CapaciteDefaut && t.cardinal == k && t.table == CellulesApres(k)
    modifies t, t.hacheur
    ensures t.Valid()
    ensures t.capacite == CapaciteDefaut && t.cardinal == k + 1 && t.table == CellulesApres(k + 1)
  {
    EtapeFixture(k);
    assert Double(Incremente(k)) < CapaciteDefaut;
    var r := t.Inserer(Cles[k], Valeurs[k]);
  }

  /** SetUp of Tdh_test: a default table, then four insertions, none of which rehashes. */
  method Fixture() returns (t: TableDeDispersion)
    ensures fresh(t) && fresh(t.hacheur) && t.Valid()
    ensures t.capacite == CapaciteDefaut && t.cardinal == 4
    ensures Paires(t.table) == {(1, "1"), (2, "2"), (3, "3"), (14, "14")}
    ensures t.table[1] == Cellule(1, "1", Occupe)
    ensures Localise(t.table, 4) == Ok(4) && Localise(t.table, 66) == Ok(10)
  {
    t := new TableDeDispersion(CapaciteDefaut);
    InsererEtape(t, 0);
    InsererEtape(t, 1);
    InsererEtape(t, 2);
    InsererEtape(t, 3);
    PairesFixture();
    SondagesFixture();
  }

  // ---------------------------------------------------------------------
  // The tests on the fixture

  /**
    Where `index` stops in the fixture: 4 on its Libre home cell; 66 (home
    cell 1) probes cells 1, 2, 5 and stops on the Libre cell 10.
  */
  lemma SondagesFixture()
    ensures Localise(CellulesApres(4), 4) == Ok(4)
    ensures Localise(CellulesApres(4), 66) == Ok(10)
  {
    var t := CellulesApres(4);
    assert Tentative(t, 4, 0) == Some(0);
    assert Sonde(66, 0, 13) == 1 && Sonde(66, 1, 13) == 2 && Sonde(66, 2, 13) == 5 && Sonde(66, 3, 13) == 10;
    assert Tentative(t, 66, 3) == Some(3);
    assert Tentative(t, 66, 0) == Some(3);
  }

  /** Neither 4 nor 66 is stored in the fixture. */
  lemma AbsentsFixture(t: seq<Cellule>)
    requires Paires(t) == {(1, "1"), (2, "2"), (3, "3"), (14, "14")}
    ensures !Present(t, 4) && !Present(t, 66)
  {
    PresentPaire(t, 4);
    PresentPaire(t, 66);
  }

  /** rechercher_present: every inserted key gives back its value. */
  method RechercherPresent() returns (r: seq<Result<Valeur>>)
    ensures r == [Ok("1"), Ok("2"), Ok("3"), Ok("14")]
  {
    var t := Fixture();
    var r1 := t.Rechercher(1);
    var r2 := t.Rechercher(2);
    var r3 := t.Rechercher(3);
    var r14 := t.Rechercher(14);
    r := [r1, r2, r3, r14];
  }

  /** rechercher_absent: 4 and 66 were never inserted; both searches throw. */
  method RechercherAbsent() returns (r4: Result<Valeur>, r66: Result<Valeur>)
    ensures r4 == Err(Absente) && r66 == Err(Absente)
  {
    var t := Fixture();
    AbsentsFixture(t.table);
    r4 := t.Rechercher(4);
    r66 := t.Rechercher(66);
  }

  /** retirer_present: once 1 is removed it is no longer found, while 14, which probed past it, still is. */
  method RetirerPresent() returns (r: Result<()>, r1: Result<Valeur>, r14: Result<Valeur>)
    ensures r.Ok? && r1 == Err(Absente) && r14 == Ok("14")
  {
    var t := Fixture();
    assert t.table[1] == Cellule(1, "1", Occupe);
    assert Present(t.table, 1);
    r := t.Retirer(1);
    assert t.table[1].cle == 1;
    assert Tentative(t.table, 1, 0) == Some(0);
    r1 := t.Rechercher(1);
    assert (14, "14") in Paires(t.table);
    r14 := t.Rechercher(14);
  }

  /** retirer_efface: removing 1 a second time throws. */
  method RetirerEfface() returns (r: Result<()>, r': Result<()>)
    ensures r.Ok? && r' == Err(Absente)
  {
    var t := Fixture();
    assert t.table[1] == Cellule(1, "1", Occupe);
    assert Present(t.table, 1);
    r := t.Retirer(1);
    assert t.table[1].cle == 1;
    assert Tentative(t.table, 1, 0) == Some(0);
    r' := t.Retirer(1);
  }

  /** retirer_absent: removing the never-inserted 66 throws. */
  method RetirerAbsent() returns (r: Result<()>)
    ensures r == Err(Absente)
  {
    var t := Fixture();
    AbsentsFixture(t.table);
    r := t.Retirer(66);
  }

  // ---------------------------------------------------------------------
  // effacer

  /**
    effacer as written empties nothing: after it, 1 is still found, and
    removing it takes the size_t counter from 0 round to 2^64 - 1.
  */
  method EffacerGardeLesCles() returns (r1: Result<Valeur>, r: Result<()>, cardinal: nat)
    ensures r1 == Ok("1") && r.Ok? && cardinal == ModuleTaille - 1
  {
    var t := Fixture();
    t.Effacer();
    assert t.table[1] == Cellule(1, "1", Occupe);
    r1 := t.Rechercher(1);
    r := t.Retirer(1);
    cardinal := t.cardinal;
  }

  /** effacer as intended (Vider): afterwards 1 is neither found nor removable, and the count stays 0. */
  method ViderOublieLesCles() returns (r1: Result<Valeur>, r: Result<()>, cardinal: nat)
    ensures r1 == Err(Absente) && r == Err(Absente) && cardinal == 0
  {
    var t := Fixture();
    t.Vider();
    assert t.table[1].etat == Libre;
    assert Tentative(t.table, 1, 0) == Some(0);
    r1 := t.Rechercher(1);
    r := t.Retirer(1);
    cardinal := t.cardinal;
  }

  // ---------------------------------------------------------------------
  // Round trips on any valid table

  /**
    Insert then search: once `inserer` succeeds, `rechercher` gives the value
    back, whether or not the insertion rehashed the table; a key already
    stored is refused and keeps its value.
  */
  method InsererPuisRechercher(t: TableDeDispersion, cle: Cle, valeur: Valeur)
    returns (r: Result<()>, v: Result<Valeur>)
    requires t.Valid() && 0 < t.capacite
    modifies t, t.hacheur
    ensures r.Ok? ==> v == Ok(valeur)
    ensures r == Err(DejaPresente) <==> old(Present(t.table, cle))
    ensures forall x :: r == Err(DejaPresente) && old((cle, x) in Paires(t.table)) ==> v == Ok(x)
  {
    r := t.Inserer(cle, valeur);
    v := t.Rechercher(cle);
  }

  /**
    Remove then search and remove again: once `retirer` succeeds, the key is
    neither found nor removable (both throw, Absente: `index` still stops on
    the tombstone), and every other stored pair is still found.
  */
  method RetirerPuisRechercher(t: TableDeDispersion, cle: Cle, autre: Cle)
    returns (r: Result<()>, v: Result<Valeur>, r': Result<()>, w: Result<Valeur>)
    requires t.Valid() && 0 < t.capacite && cle != autre
    modifies t
    ensures r.Ok? <==> old(Present(t.table, cle))
    ensures r.Ok? ==> v == Err(Absente) && r' == Err(Absente)
    ensures forall x :: r.Ok? && old((autre, x) in Paires(t.table)) ==> w == Ok(x)
  {
    ghost var avant := t.table;
    r := t.Retirer(cle);
    if r.Ok? {
      var p := Localise(avant, cle).value;
      EcritureLocalise(avant, cle, avant[p].(etat := Efface), p);
    }
    v := t.Rechercher(cle);
    r' := t.Retirer(cle);
    w := t.Rechercher(autre);
  }
}
