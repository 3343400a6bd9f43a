/**
 * The integer part of the Monte Carlo generator base class
 * (EVGEN/AliGenMC.cxx): the remapping of diffractive PDG codes, the parent and
 * decay-product selection arrays, and the forced-decay initialisation.
 */
module EvGen {

  // PDG codes of the particle constants the generator uses
  const kElectron: int := 11
  const kMuonMinus: int := 13
  const kPiPlus: int := 211
  const kKPlus: int := 321

  /** The forced decay modes that Init distinguishes. */
  datatype Decay =
    | SemiElectronic | DiElectron | SemiMuonic | DiMuon
    | BJpsiDiMuon | BJpsiDiElectron | BPsiPrimeDiMuon | BPsiPrimeDiElectron
    | PiToMu | KaToMu | NoDecay | HadronicD | All

  /** The diffractive states and the ordinary states they are replaced by. */
  const DiffractiveStates: map<int, int> :=
    map[91 := 92, 110 := 113, 210 := 211, 220 := 223, 330 := 333,
        440 := 443, 2110 := 2112, 2210 := 2212]

  /** Replaces a diffractive state by the corresponding ordinary particle and
      leaves every other code alone; the result is never diffractive. */
  function CheckPDGCode(pdgcode: int): (r: int)
    ensures pdgcode in DiffractiveStates ==> r == DiffractiveStates[pdgcode]
    ensures pdgcode !in DiffractiveStates ==> r == pdgcode
    ensures r !in DiffractiveStates
  {
    match pdgcode
    case 91 => 92
    case 110 => 113     // rho_diff0 -> rho0
    case 210 => 211     // pi_diffr+ -> pi+
    case 220 => 223     // omega_di0 -> omega0
    case 330 => 333     // phi_diff0 -> phi0
    case 440 => 443     // J/psi_di0 -> J/psi
    case 2110 => 2112   // n_diffr -> neutron
    case 2210 => 2212   // p_diffr+ -> proton
    case _ => pdgcode
  }

  /** Applying the remapping twice is the same as applying it once. */
  lemma CheckPDGCodeIdempotent(pdgcode: int)
    ensures CheckPDGCode(CheckPDGCode(pdgcode)) == CheckPDGCode(pdgcode)
  {
  }

  /** Whether `ip` occurs among codes[0..n). */
  predicate Selects(codes: seq<int>, n: nat, ip: int)
    requires n <= |codes|
  {
    exists i :: 0 <= i < n && codes[i] == ip
  }

  /** A decay-product scan of the first five slots does not see slots 5 to 7. */
  lemma ChildScanIgnoresTail(codes: seq<int>, other: seq<int>, ip: int)
    requires |codes| == 8 && |other| == 8
    requires codes[..5] == other[..5]
    ensures Selects(codes, 5, ip) == Selects(other, 5, ip)
  {
    assert forall i :: 0 <= i < 5 ==> codes[i] == codes[..5][i] && other[i] == other[..5][i];
  }

  /** After the constructor zeroes the arrays, only code 0 is selected. */
  lemma ZeroedSelectsOnlyZero(n: nat, ip: int)
    requires 0 < n <= 8
    ensures Selects(seq(8, _ => 0), n, ip) <==> ip == 0
  {
    var zeros := seq(8, _ => 0);
    if ip == 0 {
      assert zeros[0] == ip;
    }
  }

  /** The codes Init writes into the leading slots of the decay-product
      selection for each forced decay mode. */
  function DecayProducts(d: Decay): (r: seq<int>)
    ensures |r| <= 2
  {
    match d
    case SemiElectronic | DiElectron | BJpsiDiElectron | BPsiPrimeDiElectron => [kElectron]
    case SemiMuonic | DiMuon | BJpsiDiMuon | BPsiPrimeDiMuon | PiToMu | KaToMu => [kMuonMinus]
    case HadronicD => [kPiPlus, kKPlus]
    case All | NoDecay => []
  }

  /** After Init every decay product of the forced mode is reported by the
      decay-product scan, and no other code changes its answer. */
  lemma InitSelectsProducts(d: Decay, codes: seq<int>, ip: int)
    requires |codes| == 8
    ensures ip in DecayProducts(d) ==> Selects(DecayProducts(d) + codes[|DecayProducts(d)|..], 5, ip)
    ensures ip !in DecayProducts(d) ==>
              (Selects(DecayProducts(d) + codes[|DecayProducts(d)|..], 5, ip)
               <==> exists i :: |DecayProducts(d)| <= i < 5 && codes[i] == ip)
  {
    var p := DecayProducts(d);
    var after := p + codes[|p|..];
    assert forall i :: 0 <= i < |p| ==> after[i] == p[i];
    assert forall i :: |p| <= i < 8 ==> after[i] == codes[i];
    if ip in p {
      var k :| 0 <= k < |p| && p[k] == ip;
      assert after[k] == ip;
    }
  }

  class AliGenMC {
    /** fNpart, set by the base-class constructor. */
    var npart: int
    /** fParentSelect: PDG codes of the parent particles to select. */
    var parentSelect: array<int>
    /** fChildSelect: PDG codes of the decay products to select. */
    var childSelect: array<int>
    /** fForceDecay. */
    var forceDecay: Decay

    ghost predicate Valid()
      reads this
    {
      parentSelect.Length == 8 && childSelect.Length == 8 && parentSelect != childSelect
    }

    /** The `npart` constructor: both selection arrays get eight slots, all zero. */
    constructor (npart: int)
      ensures Valid() && fresh(parentSelect) && fresh(childSelect)
      ensures this.npart == npart
      ensures parentSelect[..] == seq(8, _ => 0) && childSelect[..] == seq(8, _ => 0)
    {
      var parents := new int[8];
      var children := new int[8];
      for i := 0 to 8
        invariant forall j :: 0 <= j < i ==> parents[j] == 0 && children[j] == 0
      {
        children[i] := 0;
        parents[i] := 0;
      }
      this.npart := npart;
      parentSelect, childSelect := parents, children;
    }

    /** Writes the forced mode's decay products into the leading slots of the
        decay-product selection; every other slot is kept. */
    method Init()
      requires Valid()
      modifies childSelect
      ensures childSelect[..] == DecayProducts(forceDecay) + old(childSelect[..])[|DecayProducts(forceDecay)|..]
    {
      match forceDecay
      case SemiElectronic | DiElectron | BJpsiDiElectron | BPsiPrimeDiElectron =>
        childSelect[0] := kElectron;
      case SemiMuonic | DiMuon | BJpsiDiMuon | BPsiPrimeDiMuon | PiToMu | KaToMu =>
        childSelect[0] := kMuonMinus;
      case HadronicD =>
        childSelect[0] := kPiPlus;
        childSelect[1] := kKPlus;
      case All | NoDecay =>
    }

    /** True when `ip` is among the eight parent codes. */
    method ParentSelected(ip: int) returns (selected: bool)
      requires Valid()
      ensures selected <==> Selects(parentSelect[..], 8, ip)
    {
      for i := 0 to 8
        invariant forall j :: 0 <= j < i ==> parentSelect[j] != ip
      {
        if parentSelect[i] == ip {
          return true;
        }
      }
      return false;
    }

    /** True when `ip` is among the first five decay-product codes. */
    method ChildSelected(ip: int) returns (selected: bool)
      requires Valid()
      ensures selected <==> Selects(childSelect[..], 5, ip)
    {
      for i := 0 to 5
        invariant forall j :: 0 <= j < i ==> childSelect[j] != ip
      {
        if childSelect[i] == ip {
          return true;
        }
      }
      return false;
    }
  }
}
