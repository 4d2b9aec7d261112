/**
  HacheurIntQuad: the quadratic probe sequence of the hash table. The hasher
  object only remembers the modulus (its capacite); probing a key at a given
  attempt is the pure function Sonde of the key, the attempt and that modulus.
*/
module Hacheur {
  import Premiers

  /**
    Position probed for `cle` at attempt `tentative` in a table of
    `capacite` cells: (cle mod capacite + tentative^2) mod capacite.
    A zero modulus would divide by zero, so it is excluded.
  */
  function Sonde(cle: nat, tentative: nat, capacite: nat): (r: nat)
    requires capacite > 0
    ensures r < capacite
    ensures tentative == 0 ==> r == cle % capacite
  {
    (cle % capacite + tentative * tentative) % capacite
  }

  /** Adding a multiple of the modulus does not change a remainder. */
  lemma ModuloMultiple(x: int, m: int, y: int)
    requires m > 0
    ensures (x + m * y) % m == x % m
  {
    assert x + m * y == (x / m + y) * m + x % m;
    Premiers.DivisionUnique(x + m * y, m, x / m + y, x % m);
  }

  /** Keys congruent modulo the capacity have the same probe sequence. */
  lemma SondeCongruence(cle1: nat, cle2: nat, tentative: nat, capacite: nat)
    requires capacite > 0 && cle1 % capacite == cle2 % capacite
    ensures Sonde(cle1, tentative, capacite) == Sonde(cle2, tentative, capacite)
  {
  }

  /** The probe sequence is periodic in the attempt, with period capacite. */
  lemma SondePeriodique(cle: nat, tentative: nat, capacite: nat)
    requires capacite > 0
    ensures Sonde(cle, tentative + capacite, capacite) == Sonde(cle, tentative, capacite)
  {
    var x := cle % capacite + tentative * tentative;
    assert cle % capacite + (tentative + capacite) * (tentative + capacite)
        == x + capacite * (2 * tentative + capacite);
    ModuloMultiple(x, capacite, 2 * tentative + capacite);
  }

  /**
    Attempts t and capacite - t probe the same cell, so at most the first
    capacite / 2 + 1 attempts can reach distinct cells.
  */
  lemma SondeSymetrique(cle: nat, tentative: nat, capacite: nat)
    requires 0 < capacite && tentative <= capacite
    ensures Sonde(cle, capacite - tentative, capacite) == Sonde(cle, tentative, capacite)
  {
    var x := cle % capacite + tentative * tentative;
    assert cle % capacite + (capacite - tentative) * (capacite - tentative)
        == x + capacite * (capacite - 2 * tentative);
    ModuloMultiple(x, capacite, capacite - 2 * tentative);
  }

  /** The hasher object: it holds the modulus that the table keeps in step with its size. */
  class HacheurIntQuad {
    var capacite: nat

    /** Stores the given capacity as the modulus. */
    constructor (capacite: nat)
      ensures this.capacite == capacite
    {
      this.capacite := capacite;
    }

    /** Adopts a new modulus; every later probe is taken modulo `nouvelle`. */
    method Reinitialiser(nouvelle: nat)
      modifies this
      ensures capacite == nouvelle
    {
      capacite := nouvelle;
    }

    /**
      operator(): the cell probed for `cle` at attempt `tentative`. Being a
      function it reads the modulus and cannot change it.
    */
    function Appliquer(cle: nat, tentative: nat): (r: nat)
      reads this
      requires capacite > 0
      ensures r < capacite
      ensures r == Sonde(cle, tentative, capacite)
    {
      Sonde(cle, tentative, capacite)
    }
  }
}
