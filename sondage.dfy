/**
  The cells of TableDeDispersion and the value-level meaning of its private
  `index` search: which attempt of the quadratic probe sequence stops, the
  invariant that keeps every stored key reachable, and the set of stored
  (key, value) pairs that the table represents.
*/
module Sondage {
  import opened Hacheur

  /** Keys are the unsigned words the hasher takes; values are strings, as in the tests. */
  type Cle = nat
  type Valeur = string

  /** `index` gives up (an assert fails in the C++ code) once attempt 1000 is reached. */
  const MaxTentatives: nat := 1000

  /** size_t arithmetic wraps modulo 2^64. */
  const ModuleTaille: nat := 0x1_0000_0000_0000_0000

  datatype Etat = Libre | Occupe | Efface

  /** A cell keeps its key and value in every state: stale keys stay visible to `index`. */
  datatype Cellule = Cellule(cle: Cle, valeur: Valeur, etat: Etat)

  /** A value-initialised cell, as produced by vector(n) and resize: key 0, empty value, Libre. */
  const CelluleVide := Cellule(0, "", Libre)

  /** The exceptions thrown by TableDeDispersion, and the failed assert of `index` (SondageEpuise). */
  datatype Erreur = CapaciteInvalide | DejaPresente | Absente | SondageEpuise

  datatype Option<T> = None | Some(value: T)

  datatype Result<T> = Ok(value: T) | Err(error: Erreur)

  /** The probe loop of `index` stops on a cell holding the key, whatever its state, or on a Libre cell. */
  predicate Arret(c: Cellule, cle: Cle) {
    c.cle == cle || c.etat == Libre
  }

  /**
    The first attempt, from `a` on and below MaxTentatives, at which the probe
    loop for `cle` stops; None when none of them stops.
  */
  function Tentative(t: seq<Cellule>, cle: Cle, a: nat): (r: Option<nat>)
    requires |t| > 0
    ensures r.Some? ==> a <= r.value < MaxTentatives && Arret(t[Sonde(cle, r.value, |t|)], cle)
    ensures forall b :: a <= b < (if r.Some? then r.value else MaxTentatives) ==>
              !Arret(t[Sonde(cle, b, |t|)], cle)
    decreases MaxTentatives - a
  {
    if a >= MaxTentatives then None
    else if Arret(t[Sonde(cle, a, |t|)], cle) then Some(a)
    else Tentative(t, cle, a + 1)
  }

  /** What `index(cle)` returns on the cells `t`: the cell where probing stops, or the failed fuse. */
  function Localise(t: seq<Cellule>, cle: Cle): (r: Result<nat>)
    requires |t| > 0
    ensures r.Ok? ==> r.value < |t| && Arret(t[r.value], cle)
    ensures r.Ok? ==> exists a :: 0 <= a < MaxTentatives && r.value == Sonde(cle, a, |t|) &&
                        forall b :: 0 <= b < a ==> !Arret(t[Sonde(cle, b, |t|)], cle)
    ensures r.Err? ==> r.error == SondageEpuise &&
                       forall b :: 0 <= b < MaxTentatives ==> !Arret(t[Sonde(cle, b, |t|)], cle)
  {
    match Tentative(t, cle, 0)
    case Some(a) => Ok(Sonde(cle, a, |t|))
    case None => Err(SondageEpuise)
  }

  /** Every Occupe cell is the one `index` finds for its key. */
  ghost predicate Chaines(t: seq<Cellule>) {
    forall s :: 0 <= s < |t| && t[s].etat == Occupe ==> Localise(t, t[s].cle) == Ok(s)
  }

  /** The (key, value) pairs the table holds: those of its Occupe cells. */
  ghost function Paires(t: seq<Cellule>): set<(Cle, Valeur)> {
    set s | 0 <= s < |t| && t[s].etat == Occupe :: (t[s].cle, t[s].valeur)
  }

  /** Some Occupe cell holds `cle`. */
  ghost predicate Present(t: seq<Cellule>, cle: Cle) {
    exists s :: 0 <= s < |t| && t[s].etat == Occupe && t[s].cle == cle
  }

  /** The number of Occupe cells, counted from the front. */
  function NbOccupe(t: seq<Cellule>): (n: nat)
    ensures n <= |t|
  {
    if t == [] then 0 else NbOccupe(t[..|t| - 1]) + (if t[|t| - 1].etat == Occupe then 1 else 0)
  }

  /**
    The assert of `index` trips for some key of `ps`: probing for it in `t`
    reaches attempt 1000 without stopping.
  */
  ghost predicate Epuisee(t: seq<Cellule>, ps: set<(Cle, Valeur)>) {
    |t| > 0 && exists x :: x in ps && Localise(t, x.0).Err?
  }

  /** A key whose probing fails makes the assert trip for any set of pairs that carries it. */
  lemma EpuiseeAjout(t: seq<Cellule>, ps: set<(Cle, Valeur)>, cle: Cle, valeur: Valeur)
    requires |t| > 0 && Localise(t, cle).Err?
    ensures Epuisee(t, ps + {(cle, valeur)})
  {
    assert (cle, valeur) in ps + {(cle, valeur)};
  }

  /** No tombstone: every cell is Libre or Occupe, as right after a rehash. */
  predicate SansEfface(t: seq<Cellule>) {
    forall s :: 0 <= s < |t| ==> t[s].etat != Efface
  }

  // ---------------------------------------------------------------------
  // Probing

  /**
    The first stop only depends on whether each probed cell stops the loop,
    up to and including the stopping attempt.
  */
  lemma {:induction false} TentativeCadre(t1: seq<Cellule>, t2: seq<Cellule>, cle: Cle, a: nat)
    requires |t1| == |t2| > 0
    requires Tentative(t1, cle, a).Some?
    requires forall b :: a <= b <= Tentative(t1, cle, a).value ==>
               (Arret(t1[Sonde(cle, b, |t1|)], cle) <==> Arret(t2[Sonde(cle, b, |t2|)], cle))
    ensures Tentative(t2, cle, a) == Tentative(t1, cle, a)
    decreases MaxTentatives - a
  {
    if !Arret(t1[Sonde(cle, a, |t1|)], cle) {
      TentativeCadre(t1, t2, cle, a + 1);
    }
  }

  /**
    Under the invariant, a key is stored exactly when `index` finds it in an
    Occupe cell; that cell then holds the key.
  */
  lemma LocalisePresent(t: seq<Cellule>, cle: Cle)
    requires |t| > 0 && Chaines(t)
    ensures Present(t, cle) <==> Localise(t, cle).Ok? && t[Localise(t, cle).value].etat == Occupe
    ensures Localise(t, cle).Ok? && t[Localise(t, cle).value].etat == Occupe ==>
              t[Localise(t, cle).value].cle == cle
  {
    if Present(t, cle) {
      var s :| 0 <= s < |t| && t[s].etat == Occupe && t[s].cle == cle;
      assert Localise(t, cle) == Ok(s);
    }
  }

  /** Every stored pair sits in the cell that `index` finds for its key. */
  lemma PaireLocalisee(t: seq<Cellule>, cle: Cle, valeur: Valeur)
    requires Chaines(t) && (cle, valeur) in Paires(t)
    ensures |t| > 0 && Localise(t, cle).Ok?
    ensures t[Localise(t, cle).value] == Cellule(cle, valeur, Occupe)
  {
    var s :| 0 <= s < |t| && t[s].etat == Occupe && (cle, valeur) == (t[s].cle, t[s].valeur);
    assert Localise(t, cle) == Ok(s);
  }

  /** Under the invariant, the stored pairs form a map: one value per key. */
  lemma PairesFonctionnelles(t: seq<Cellule>, cle: Cle, v1: Valeur, v2: Valeur)
    requires Chaines(t) && (cle, v1) in Paires(t) && (cle, v2) in Paires(t)
    ensures v1 == v2
  {
    PaireLocalisee(t, cle, v1);
    PaireLocalisee(t, cle, v2);
  }

  /** A key is stored exactly when some pair carries it. */
  lemma PresentPaire(t: seq<Cellule>, cle: Cle)
    ensures Present(t, cle) <==> exists v :: (cle, v) in Paires(t)
  {
    if Present(t, cle) {
      var s :| 0 <= s < |t| && t[s].etat == Occupe && t[s].cle == cle;
      assert (cle, t[s].valeur) in Paires(t);
    }
    if exists v :: (cle, v) in Paires(t) {
      var v :| (cle, v) in Paires(t);
      var s :| 0 <= s < |t| && t[s].etat == Occupe && (cle, v) == (t[s].cle, t[s].valeur);
      assert t[s].cle == cle;
    }
  }

  // ---------------------------------------------------------------------
  // Fresh cells

  /** A table of value-initialised cells holds nothing and keeps the invariant. */
  lemma TableVide(n: nat)
    ensures Chaines(seq(n, _ => CelluleVide))
    ensures Paires(seq(n, _ => CelluleVide)) == {}
  {
  }

  // ---------------------------------------------------------------------
  // Writing a pair into the cell found by index

  /** Turning a non-Occupe cell into an Occupe one adds exactly its pair. */
  lemma PairesEcriture(t: seq<Cellule>, p: nat, c: Cellule)
    requires p < |t| && t[p].etat != Occupe && c.etat == Occupe
    ensures Paires(t[p := c]) == Paires(t) + {(c.cle, c.valeur)}
  {
    var t2 := t[p := c];
    forall x | x in Paires(t2)
      ensures x in Paires(t) + {(c.cle, c.valeur)}
    {
      var s :| 0 <= s < |t2| && t2[s].etat == Occupe && x == (t2[s].cle, t2[s].valeur);
      if s != p {
        assert t[s] == t2[s];
        assert x in Paires(t);
      }
    }
    forall x | x in Paires(t) + {(c.cle, c.valeur)}
      ensures x in Paires(t2)
    {
      if x in Paires(t) {
        var s :| 0 <= s < |t| && t[s].etat == Occupe && x == (t[s].cle, t[s].valeur);
        assert t2[s] == t[s];
      } else {
        assert t2[p] == c;
      }
    }
  }

  /** After the write, probing for `cle` still stops at the written cell. */
  lemma EcritureLocalise(t: seq<Cellule>, cle: Cle, c: Cellule, p: nat)
    requires |t| > 0 && Localise(t, cle) == Ok(p) && c.cle == cle
    ensures Localise(t[p := c], cle) == Ok(p)
  {
    var t2 := t[p := c];
    var a := Tentative(t, cle, 0).value;
    forall b | 0 <= b <= a
      ensures Arret(t[Sonde(cle, b, |t|)], cle) <==> Arret(t2[Sonde(cle, b, |t|)], cle)
    {
      if Sonde(cle, b, |t|) == p && b < a {
        assert false;
      }
    }
    TentativeCadre(t, t2, cle, 0);
  }

  /**
    Writing the key `cle` into the non-Occupe cell where probing for `cle`
    stopped does not move the stop of the key of another cell s.
  */
  lemma EcritureAutreCle(t: seq<Cellule>, cle: Cle, c: Cellule, p: nat, s: nat)
    requires |t| > 0 && Localise(t, cle) == Ok(p) && t[p].etat != Occupe
    requires c.cle == cle && c.etat == Occupe && s < |t| && s != p && Localise(t, t[s].cle) == Ok(s)
    ensures Localise(t[p := c], t[s].cle) == Ok(s)
  {
    var t2 := t[p := c];
    var k := t[s].cle;
    assert k != cle;
    var a := Tentative(t, k, 0).value;
    forall b | 0 <= b <= a
      ensures Arret(t[Sonde(k, b, |t|)], k) <==> Arret(t2[Sonde(k, b, |t|)], k)
    {
      var q := Sonde(k, b, |t|);
      if q != p {
        assert t2[q] == t[q];
      } else if b < a {
        assert !Arret(t[q], k) && t2[q] == c;
      } else {
        assert false;
      }
    }
    TentativeCadre(t, t2, k, 0);
  }

  /**
    Writing (cle, valeur, Occupe) into the non-Occupe cell that `index` found
    for `cle` keeps every stored key reachable, makes `cle` reachable there,
    and adds exactly that pair.
  */
  lemma InsertionChaines(t: seq<Cellule>, cle: Cle, valeur: Valeur, p: nat)
    requires |t| > 0 && Chaines(t) && Localise(t, cle) == Ok(p) && t[p].etat != Occupe
    ensures Chaines(t[p := Cellule(cle, valeur, Occupe)])
    ensures Localise(t[p := Cellule(cle, valeur, Occupe)], cle) == Ok(p)
    ensures Paires(t[p := Cellule(cle, valeur, Occupe)]) == Paires(t) + {(cle, valeur)}
  {
    var c := Cellule(cle, valeur, Occupe);
    var t2 := t[p := c];
    EcritureLocalise(t, cle, c, p);
    forall s | 0 <= s < |t2| && t2[s].etat == Occupe
      ensures Localise(t2, t2[s].cle) == Ok(s)
    {
      if s != p {
        EcritureAutreCle(t, cle, c, p, s);
      }
    }
    PairesEcriture(t, p, c);
  }

  // ---------------------------------------------------------------------
  // Marking a cell Efface

  /**
    Marking the Occupe cell of a key Efface keeps every other stored key
    reachable, leaves the key stored nowhere, and removes exactly the pairs
    carrying that key.
  */
  lemma RetraitChaines(t: seq<Cellule>, p: nat)
    requires p < |t| && Chaines(t) && t[p].etat == Occupe
    ensures Chaines(t[p := t[p].(etat := Efface)])
    ensures !Present(t[p := t[p].(etat := Efface)], t[p].cle)
    ensures Paires(t[p := t[p].(etat := Efface)]) == set x | x in Paires(t) && x.0 != t[p].cle
  {
    var cle := t[p].cle;
    var t2 := t[p := t[p].(etat := Efface)];
    var n := |t|;
    forall s | 0 <= s < |t2| && t2[s].etat == Occupe
      ensures Localise(t2, t2[s].cle) == Ok(s) && t2[s].cle != cle
    {
      var k := t[s].cle;
      assert Localise(t, k) == Ok(s);
      assert k != cle by {
        assert Localise(t, cle) == Ok(p);
      }
      var a := Tentative(t, k, 0).value;
      forall b | 0 <= b <= a
        ensures Arret(t[Sonde(k, b, n)], k) <==> Arret(t2[Sonde(k, b, n)], k)
      {
      }
      TentativeCadre(t, t2, k, 0);
    }
    var garde := set x | x in Paires(t) && x.0 != cle;
    forall x | x in Paires(t2)
      ensures x in garde
    {
      var s :| 0 <= s < |t2| && t2[s].etat == Occupe && x == (t2[s].cle, t2[s].valeur);
      assert t[s] == t2[s];
      assert x in Paires(t);
    }
    forall x | x in garde
      ensures x in Paires(t2)
    {
      var s :| 0 <= s < |t| && t[s].etat == Occupe && x == (t[s].cle, t[s].valeur);
      assert t2[s] == t[s];
    }
  }

  // ---------------------------------------------------------------------
  // Re-insertion during a rehash

  /** Appending one cell adds its pair when it is Occupe, and nothing otherwise. */
  lemma PairesAjout(s: seq<Cellule>, c: Cellule)
    ensures Paires(s + [c]) == Paires(s) + (if c.etat == Occupe then {(c.cle, c.valeur)} else {})
  {
    var s2 := s + [c];
    forall x | x in Paires(s2)
      ensures x in Paires(s) + (if c.etat == Occupe then {(c.cle, c.valeur)} else {})
    {
      var i :| 0 <= i < |s2| && s2[i].etat == Occupe && x == (s2[i].cle, s2[i].valeur);
      if i < |s| {
        assert s2[i] == s[i];
      }
    }
    forall x | x in Paires(s) + (if c.etat == Occupe then {(c.cle, c.valeur)} else {})
      ensures x in Paires(s2)
    {
      if x in Paires(s) {
        var i :| 0 <= i < |s| && s[i].etat == Occupe && x == (s[i].cle, s[i].valeur);
        assert s2[i] == s[i];
      } else {
        assert s2[|s|] == c;
      }
    }
  }

  /** The pairs of a prefix grow one cell at a time; the whole prefix gives all the pairs. */
  lemma PairesPrefixe(s: seq<Cellule>, j: nat)
    requires j <= |s|
    ensures j < |s| ==>
              Paires(s[..j + 1]) ==
              Paires(s[..j]) + (if s[j].etat == Occupe then {(s[j].cle, s[j].valeur)} else {})
    ensures j == |s| ==> Paires(s[..j]) == Paires(s)
  {
    if j < |s| {
      assert s[..j + 1] == s[..j] + [s[j]];
      PairesAjout(s[..j], s[j]);
    } else {
      assert s[..j] == s;
    }
  }

  /** The pairs of a prefix are among the pairs of the whole. */
  lemma PairesPrefixeIncluses(s: seq<Cellule>, k: nat)
    requires k <= |s|
    ensures Paires(s[..k]) <= Paires(s)
  {
    forall x | x in Paires(s[..k])
      ensures x in Paires(s)
    {
      var i :| 0 <= i < k && s[..k][i].etat == Occupe && x == (s[..k][i].cle, s[..k][i].valeur);
      assert s[i] == s[..k][i];
    }
  }

  /**
    While the Occupe cells of an old table are re-inserted in order, the key of
    the next one is not yet stored: the old table held each key once.
  */
  lemma AbsentDesPrecedents(t: seq<Cellule>, copie: seq<Cellule>, j: nat)
    requires Chaines(copie) && j < |copie| && copie[j].etat == Occupe
    requires Paires(t) == Paires(copie[..j])
    ensures !Present(t, copie[j].cle)
  {
    var cle := copie[j].cle;
    forall s | 0 <= s < |t| && t[s].etat == Occupe
      ensures t[s].cle != cle
    {
      var x := (t[s].cle, t[s].valeur);
      assert x in Paires(copie[..j]);
      var i :| 0 <= i < j && copie[..j][i].etat == Occupe && x == (copie[..j][i].cle, copie[..j][i].valeur);
      assert copie[i] == copie[..j][i];
      assert Localise(copie, copie[i].cle) == Ok(i);
      assert Localise(copie, cle) == Ok(j);
    }
  }

  /** The count of Occupe cells of a prefix grows by one exactly at an Occupe cell. */
  lemma NbOccupePas(s: seq<Cellule>, j: nat)
    requires j < |s|
    ensures NbOccupe(s[..j + 1]) == NbOccupe(s[..j]) + (if s[j].etat == Occupe then 1 else 0)
  {
    assert s[..j + 1][..j] == s[..j];
  }
}
