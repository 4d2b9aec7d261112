/**
  TableDeDispersion: an open-addressing hash table with quadratic probing and
  tombstones (Efface cells). The object owns its cells, its capacity, its
  counter `cardinal` (a size_t) and its hasher; insertion grows the table by
  rehashing into prochain_premier(2 * capacite) cells once
  capacite <= 2 * cardinal.
*/
module TableDispersion {
  import opened Premiers
  import opened Hacheur
  import opened Sondage

  const CapaciteDefaut: nat := 13
  const CapaciteMaximale: nat := 10000

  /** ++n on a size_t. */
  function Incremente(n: nat): (r: nat)
    requires n < ModuleTaille
    ensures r < ModuleTaille
    ensures r == if n + 1 == ModuleTaille then 0 else n + 1
  {
    (n + 1) % ModuleTaille
  }

  /** --n on a size_t: 0 wraps round to the largest value. */
  function Decremente(n: nat): (r: nat)
    requires n < ModuleTaille
    ensures r < ModuleTaille && (r + 1) % ModuleTaille == n
  {
    if n == 0 then ModuleTaille - 1 else n - 1
  }

  /** 2 * n on a size_t: the product loses its bit 64. */
  function Double(n: nat): (r: nat)
    ensures r < ModuleTaille
    ensures n < ModuleTaille ==> r == if 2 * n < ModuleTaille then 2 * n else 2 * n - ModuleTaille
  {
    (2 * n) % ModuleTaille
  }

  /** The size_t counter after n increments from c0. */
  function Compte(c0: nat, n: nat): (r: nat)
    ensures r < ModuleTaille
  {
    (c0 + n) % ModuleTaille
  }

  lemma CompteSuivant(c0: nat, n: nat)
    requires c0 < ModuleTaille
    ensures Compte(c0, 0) == c0
    ensures Incremente(Compte(c0, n)) == Compte(c0, n + 1)
  {
  }

  /**
    While the first j cells of `copie` are re-inserted by rehacher into a
    table of capacity `cap`, starting from the counter c0, no insertion of
    an Occupe cell reaches capacite <= 2 * cardinal: no nested rehash.
  */
  ghost predicate SansDeclenchement(c0: nat, copie: seq<Cellule>, j: nat, cap: nat)
    requires j <= |copie|
  {
    forall k :: 0 <= k < j && copie[k].etat == Occupe ==>
      Double(Compte(c0, NbOccupe(copie[..k + 1]))) < cap
  }

  /**
    The counter's progress after the first j cells of `copie` are re-inserted
    by rehacher into capacity `cap`, with `capacite` and `cardinal` now: while
    the capacity is still cap, the counter has gone up once per Occupe cell
    and no insertion reached the threshold; after a nested rehash, one did.
  */
  ghost predicate Suivi(c0: nat, copie: seq<Cellule>, j: nat, cap: nat, capacite: nat, cardinal: nat)
    requires j <= |copie|
  {
    (capacite == cap ==>
       cardinal == Compte(c0, NbOccupe(copie[..j])) && SansDeclenchement(c0, copie, j, cap)) &&
    (capacite != cap ==> !SansDeclenchement(c0, copie, j, cap))
  }

  /** Once every cell of `copie` is re-inserted, the progress is that of the whole of `copie`. */
  lemma SuiviComplet(c0: nat, copie: seq<Cellule>, cap: nat, capacite: nat, cardinal: nat)
    requires Suivi(c0, copie, |copie|, cap, capacite, cardinal)
    ensures capacite == cap <==> SansDeclenchement(c0, copie, |copie|, cap)
    ensures capacite == cap ==> cardinal == Compte(c0, NbOccupe(copie))
  {
    assert copie[..|copie|] == copie;
  }

  /**
    One turn of the re-insertion loop of rehacher, in terms of the capacity
    and counter before (capAvant, cardAvant) and after it: as long as the
    capacity is still cap, the counter has gone up once per Occupe cell and
    no insertion reached the threshold; once a nested rehash has happened,
    some insertion did.
  */
  lemma {:induction false} CompteurPas(c0: nat, copie: seq<Cellule>, j: nat, cap: nat,
                                       capAvant: nat, cardAvant: nat, capApres: nat, cardApres: nat)
    requires c0 < ModuleTaille && cardAvant < ModuleTaille && j < |copie|
    requires capAvant == cap || capAvant > 2 * cap
    requires capApres == capAvant || capApres > 2 * capAvant
    requires Suivi(c0, copie, j, cap, capAvant, cardAvant)
    requires copie[j].etat != Occupe ==> capApres == capAvant && cardApres == cardAvant
    requires copie[j].etat == Occupe ==> (capApres == capAvant <==> Double(Incremente(cardAvant)) < capAvant)
    requires copie[j].etat == Occupe && capApres == capAvant ==> cardApres == Incremente(cardAvant)
    ensures Suivi(c0, copie, j + 1, cap, capApres, cardApres)
  {
    NbOccupePas(copie, j);
    CompteSuivant(c0, NbOccupe(copie[..j]));
    if capAvant != cap {
      var k :| 0 <= k < j && copie[k].etat == Occupe && cap <= Double(Compte(c0, NbOccupe(copie[..k + 1])));
      assert !SansDeclenchement(c0, copie, j + 1, cap) by {
        assert 0 <= k < j + 1;
      }
    } else if capApres != cap {
      assert copie[j].etat == Occupe;
      assert !SansDeclenchement(c0, copie, j + 1, cap) by {
        assert cap <= Double(Compte(c0, NbOccupe(copie[..j + 1])));
      }
    }
  }

  /**
    What rehacher leaves, from capacity cap0, counter card0 and cells t0:
    the capacity is c = prochain_premier(2 * cap0), or above twice c after a
    nested rehash. When every re-insertion succeeds, it stays c exactly
    when no re-insertion reaches the threshold, and then the counter has
    gone up once per Occupe cell of t0.
  */
  ghost predicate Rehachage(cap0: nat, card0: nat, t0: seq<Cellule>, cap: nat, card: nat, ok: bool) {
    exists c: nat :: ProchainPremierDe(2 * cap0, c) && (cap == c || cap > 2 * c) &&
      (ok ==> (cap == c <==> SansDeclenchement(card0, t0, |t0|, c))) &&
      (ok && cap == c ==> card == Compte(card0, NbOccupe(t0)))
  }

  /**
    How far the capacity still is from the size_t bound. A rehash is only
    started when capacite <= Double(cardinal) < 2^64 and always grows the
    capacity, so this measure decreases from one nested rehash to the next.
  */
  function Marge(capacite: nat): nat {
    if capacite < ModuleTaille then ModuleTaille - capacite else 0
  }

  class TableDeDispersion {
    var table: seq<Cellule>
    var capacite: nat
    var cardinal: nat
    const hacheur: HacheurIntQuad

    /**
      The object invariant: one cell per unit of capacity, the hasher uses
      the same modulus, the counter is a size_t and every Occupe cell is
      the one `index` finds for its key. `cardinal` is not tied to the
      number of Occupe cells: rehashing counts every re-insertion again.
    */
    ghost predicate Valid()
      reads this, hacheur
    {
      |table| == capacite && hacheur.capacite == capacite &&
      cardinal < ModuleTaille && Chaines(table)
    }

    /**
      The member initialisers of the constructor: `capacite` value-initialised
      cells, cardinal 0, a hasher with that modulus. The capacity check that
      follows them is modelled by Construire.
    */
    constructor (capacite: nat)
      ensures Valid() && fresh(hacheur)
      ensures this.capacite == capacite && cardinal == 0
      ensures table == seq(capacite, _ => CelluleVide)
      ensures Paires(table) == {}
    {
      table := seq(capacite, _ => CelluleVide);
      this.capacite := capacite;
      cardinal := 0;
      hacheur := new HacheurIntQuad(capacite);
      new;
      TableVide(capacite);
    }

    /**
      index(cle): walk the probe sequence until a cell holds `cle` (whatever
      its state) or is Libre. Attempt 1000 trips the assert of the C++ code.
    */
    method Index(cle: Cle) returns (r: Result<nat>)
      requires Valid() && 0 < capacite
      ensures r == Localise(table, cle)
    {
      var tentative: nat := 0;
      var i := hacheur.Appliquer(cle, tentative);
      var cellule := table[i];
      while cellule.cle != cle && cellule.etat != Libre
        invariant tentative < MaxTentatives
        invariant i == Sonde(cle, tentative, capacite) && cellule == table[i]
        invariant Tentative(table, cle, tentative) == Tentative(table, cle, 0)
        decreases MaxTentatives - tentative
      {
        tentative := tentative + 1;
        i := hacheur.Appliquer(cle, tentative);
        cellule := table[i];
        if tentative >= MaxTentatives {
          return Err(SondageEpuise);
        }
      }
      return Ok(i);
    }

    /**
      rechercher: the value of `cle` when the cell found by `index` holds it
      and is Occupe, Absente otherwise.
    */
    method Rechercher(cle: Cle) returns (r: Result<Valeur>)
      requires Valid() && 0 < capacite
      ensures r.Ok? <==> Present(table, cle)
      ensures forall v :: (cle, v) in Paires(table) ==> r == Ok(v)
      ensures r.Err? ==> r.error == if Localise(table, cle).Err? then SondageEpuise else Absente
    {
      var p := Index(cle);
      if p.Err? {
        return Err(SondageEpuise);
      }
      LocalisePresent(table, cle);
      var cellule := table[p.value];
      if cellule.cle == cle && cellule.etat == Occupe {
        forall v | (cle, v) in Paires(table)
          ensures cellule.valeur == v
        {
          PaireLocalisee(table, cle, v);
        }
        return Ok(cellule.valeur);
      }
      forall v | (cle, v) in Paires(table)
        ensures false
      {
        PaireLocalisee(table, cle, v);
      }
      return Err(Absente);
    }

    /**
      inserer: write (cle, valeur, Occupe) into the cell found by `index`,
      unless that cell is Occupe (the key is already stored); count it, and
      rehash once capacite <= 2 * cardinal.
    */
    method Inserer(cle: Cle, valeur: Valeur) returns (r: Result<()>)
      requires Valid() && 0 < capacite
      modifies this, hacheur
      ensures Valid() && capacite >= old(capacite)
      ensures capacite != old(capacite) ==> Premier(capacite) && capacite > 2 * old(capacite)
      ensures r.Err? ==> r.error == DejaPresente || r.error == SondageEpuise
      ensures r == Err(DejaPresente) <==> old(Present(table, cle))
      ensures old(Localise(table, cle)).Err? ==> r == Err(SondageEpuise)
      ensures r == Err(SondageEpuise) ==> Epuisee(table, old(Paires(table)) + {(cle, valeur)})
      ensures old(Present(table, cle)) || old(Localise(table, cle)).Err? ==>
                table == old(table) && capacite == old(capacite) && cardinal == old(cardinal)
      ensures r.Ok? ==> Paires(table) == old(Paires(table)) + {(cle, valeur)}
      ensures r.Ok? ==> Double(cardinal) < capacite
      ensures SansEfface(old(table)) ==> SansEfface(table)
      ensures !old(Present(table, cle)) && old(Localise(table, cle)).Ok? &&
              old(capacite) <= Double(Incremente(old(cardinal))) ==>
                capacite > 2 * old(capacite) &&
                Rehachage(old(capacite), Incremente(old(cardinal)),
                          old(table)[old(Localise(table, cle)).value := Cellule(cle, valeur, Occupe)],
                          capacite, cardinal, r.Ok?)
      ensures !old(Present(table, cle)) && old(Localise(table, cle)).Ok? &&
              Double(Incremente(old(cardinal))) < old(capacite) ==>
                r == Ok(()) && capacite == old(capacite) &&
                cardinal == Incremente(old(cardinal)) &&
                table == old(table)[old(Localise(table, cle)).value := Cellule(cle, valeur, Occupe)]
      decreases Marge(capacite), 1
    {
      var p := Index(cle);
      if p.Err? {
        EpuiseeAjout(table, Paires(table), cle, valeur);
        return Err(SondageEpuise);
      }
      LocalisePresent(table, cle);
      var i := p.value;
      if table[i].etat == Occupe {
        return Err(DejaPresente);
      }
      InsertionChaines(table, cle, valeur, i);
      table := table[i := Cellule(cle, valeur, Occupe)];
      cardinal := Incremente(cardinal);
      if capacite <= Double(cardinal) {
        ghost var avant := Paires(table);
        r := Rehacher();
        assert r.Err? ==> Epuisee(table, avant);
      } else {
        r := Ok(());
      }
    }

    /**
      retirer: mark Efface the cell found by `index` when it holds `cle` and
      is Occupe, and decrement the size_t counter; Absente otherwise.
    */
    method Retirer(cle: Cle) returns (r: Result<()>)
      requires Valid() && 0 < capacite
      modifies this
      ensures Valid() && capacite == old(capacite)
      ensures r.Ok? <==> old(Present(table, cle))
      ensures r.Err? ==> r.error == if old(Localise(table, cle)).Err? then SondageEpuise else Absente
      ensures r.Err? ==> table == old(table) && cardinal == old(cardinal)
      ensures r.Ok? ==>
                table == old(table)[old(Localise(table, cle)).value :=
                                    old(table)[old(Localise(table, cle)).value].(etat := Efface)] &&
                cardinal == Decremente(old(cardinal))
      ensures r.Ok? ==> !Present(table, cle) &&
                        Paires(table) == set x | x in old(Paires(table)) && x.0 != cle
    {
      var p := Index(cle);
      if p.Err? {
        return Err(SondageEpuise);
      }
      LocalisePresent(table, cle);
      var i := p.value;
      var cellule := table[i];
      if cellule.cle == cle && cellule.etat == Occupe {
        RetraitChaines(table, i);
        table := table[i := cellule.(etat := Efface)];
        cardinal := Decremente(cardinal);
        return Ok(());
      }
      return Err(Absente);
    }

    /**
      effacer as written: the loop resets copies of the cells, so the only
      effect is cardinal = 0; every stored pair stays stored.
    */
    method Effacer()
      requires Valid()
      modifies this
      ensures Valid() && cardinal == 0
      ensures table == old(table) && capacite == old(capacite)
    {
      cardinal := 0;
    }

    /**
      effacer as its documentation intends (the loop taking each cell by
      reference): every cell becomes Libre, keeping its stale key and value.
    */
    method Vider()
      requires Valid()
      modifies this
      ensures Valid() && cardinal == 0 && capacite == old(capacite)
      ensures |table| == |old(table)|
      ensures forall s :: 0 <= s < |table| ==> table[s] == old(table)[s].(etat := Libre)
      ensures Paires(table) == {}
    {
      cardinal := 0;
      var i := 0;
      while i < |table|
        invariant i <= |table| == |old(table)| && capacite == old(capacite) && cardinal == 0
        invariant forall s :: 0 <= s < i ==> table[s] == old(table)[s].(etat := Libre)
        invariant forall s :: i <= s < |table| ==> table[s] == old(table)[s]
      {
        table := table[i := table[i].(etat := Libre)];
        i := i + 1;
      }
    }

    /**
      rehacher: move the cells aside, allocate prochain_premier(2 * capacite)
      value-initialised cells, retarget the hasher and re-insert the Occupe
      pairs of the old cells (Reinserer). Efface cells are dropped; every
      re-insertion increments cardinal again and may itself rehash.
    */
    method Rehacher() returns (r: Result<()>)
      requires Valid() && 0 < capacite < ModuleTaille
      modifies this, hacheur
      ensures Valid()
      ensures Premier(capacite) && capacite > 2 * old(capacite)
      ensures Rehachage(old(capacite), old(cardinal), old(table), capacite, cardinal, r.Ok?)
      ensures SansEfface(table)
      ensures r.Err? ==> r.error == SondageEpuise
      ensures r.Err? ==> Epuisee(table, old(Paires(table)))
      ensures r.Ok? ==> Paires(table) == old(Paires(table))
      ensures r.Ok? && old(Paires(table)) != {} ==> Double(cardinal) < capacite
      decreases Marge(capacite), 0
    {
      var copie := table;
      var nouvelle := ProchainPremier(2 * capacite);
      capacite := nouvelle;
      table := seq(capacite, _ => CelluleVide);
      hacheur.Reinitialiser(capacite);
      TableVide(capacite);
      r := Reinserer(copie);
    }

    /**
      What holds after the first j cells of `copie` are re-inserted by
      rehacher into a table of capacity `cap`, from the counter c0: the
      object is valid, prime-sized and without tombstones, it stores exactly
      the pairs of those cells, and the counter has progressed as Suivi says.
    */
    ghost predicate Reinsertion(copie: seq<Cellule>, j: nat, c0: nat, cap: nat)
      reads this, hacheur
      requires j <= |copie|
    {
      Valid() && 0 < capacite && Premier(capacite) && (capacite == cap || capacite > 2 * cap) &&
      SansEfface(table) && Paires(table) == Paires(copie[..j]) &&
      (Paires(table) != {} ==> Double(cardinal) < capacite) &&
      Suivi(c0, copie, j, cap, capacite, cardinal)
    }

    /**
      The loop of rehacher over the moved-out cells, one ReinsererCellule per
      cell; the first failure is passed on.
    */
    method Reinserer(copie: seq<Cellule>) returns (r: Result<()>)
      requires Valid() && 0 < capacite && Premier(capacite) && Chaines(copie)
      requires Paires(table) == {} && SansEfface(table)
      modifies this, hacheur
      ensures Valid() && Premier(capacite)
      ensures capacite == old(capacite) || capacite > 2 * old(capacite)
      ensures SansEfface(table)
      ensures r.Err? ==> r.error == SondageEpuise
      ensures r.Err? ==> Epuisee(table, Paires(copie))
      ensures r.Ok? ==> Paires(table) == Paires(copie)
      ensures r.Ok? && Paires(copie) != {} ==> Double(cardinal) < capacite
      ensures r.Ok? ==> (capacite == old(capacite) <==> SansDeclenchement(old(cardinal), copie, |copie|, old(capacite)))
      ensures r.Ok? && capacite == old(capacite) ==> cardinal == Compte(old(cardinal), NbOccupe(copie))
      decreases Marge(capacite), 3
    {
      CompteSuivant(cardinal, 0);
      var j := 0;
      while j < |copie|
        invariant j <= |copie|
        invariant Reinsertion(copie, j, old(cardinal), old(capacite))
      {
        r := ReinsererCellule(copie, j, old(cardinal), old(capacite));
        if r.Err? {
          PairesPrefixeIncluses(copie, j + 1);
          return r;
        }
        j := j + 1;
      }
      PairesPrefixe(copie, j);
      SuiviComplet(old(cardinal), copie, old(capacite), capacite, cardinal);
      return Ok(());
    }

    /**
      One turn of that loop: an Occupe cell of the old table goes through
      `inserer`, which counts it again and may itself rehash; other cells
      are skipped.
    */
    method ReinsererCellule(copie: seq<Cellule>, j: nat, ghost c0: nat, ghost cap: nat) returns (r: Result<()>)
      requires Chaines(copie) && j < |copie| && c0 < ModuleTaille
      requires Reinsertion(copie, j, c0, cap)
      modifies this, hacheur
      ensures Valid() && Premier(capacite) && SansEfface(table)
      ensures capacite == old(capacite) || capacite > 2 * old(capacite)
      ensures capacite == cap || capacite > 2 * cap
      ensures r.Err? ==> r.error == SondageEpuise
      ensures r.Err? ==> Epuisee(table, Paires(copie[..j + 1]))
      ensures r.Ok? ==> Paires(table) == Paires(copie[..j + 1]) && Reinsertion(copie, j + 1, c0, cap)
      ensures copie[j].etat != Occupe ==> r.Ok? && capacite == old(capacite) && cardinal == old(cardinal)
      ensures copie[j].etat == Occupe && r.Ok? ==>
                (capacite == old(capacite) <==> Double(Incremente(old(cardinal))) < old(capacite))
      ensures copie[j].etat == Occupe && r.Ok? && capacite == old(capacite) ==> cardinal == Incremente(old(cardinal))
      decreases Marge(capacite), 2
    {
      PairesPrefixe(copie, j);
      var cellule := copie[j];
      if cellule.etat == Occupe {
        AbsentDesPrecedents(table, copie, j);
        r := Inserer(cellule.cle, cellule.valeur);
      } else {
        r := Ok(());
      }
      if r.Ok? {
        CompteurPas(c0, copie, j, cap, old(capacite), old(cardinal), capacite, cardinal);
      }
    }
  }

  /**
    The constructor with its capacity check: the cells are allocated, then
    a capacity above Capacite_Maximale is refused.
  */
  method Construire(capacite: nat) returns (r: Result<TableDeDispersion>)
    ensures r.Err? <==> capacite > CapaciteMaximale
    ensures r.Err? ==> r.error == CapaciteInvalide
    ensures r.Ok? ==> fresh(r.value) && fresh(r.value.hacheur) && r.value.Valid()
    ensures r.Ok? ==> r.value.capacite == capacite && r.value.cardinal == 0 &&
                      r.value.table == seq(capacite, _ => CelluleVide)
  {
    var t := new TableDeDispersion(capacite);
    if capacite > CapaciteMaximale {
      return Err(CapaciteInvalide);
    }
    return Ok(t);
  }
}
