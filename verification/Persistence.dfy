/** Storing the attestation state in the agent's database row, and restoring it when the verifier starts. */
module Persistence {
  import opened Bytes
  import opened Crypto
  import opened OrderedDict
  import opened Keyrings
  import opened AgentStates

  /** The attestation columns of an agent's row. */
  datatype Stored = Stored(boottime: int, next: nat, pcrs: map<int, Bytes>, learned: Dict<string, RingJson>)

  const EMPTY_ROW := Stored(0, 0, map[], [])

  /** Nothing is written unless an IMA PCR is in use: a reset never reaches the row. */
  function Store(c: Crypto, row: Stored, s: State): Stored {
    if ImaPcrValues(s) == map[] then row else Stored(s.boottime, s.next, ImaPcrValues(s), RingsToJson(c, s.rings))
  }

  /** Devices, clock and quote progress are not part of the row. */
  function Restored(c: Crypto, row: Stored): State {
    INITIAL.(boottime := row.boottime, next := row.next, pcrs := row.pcrs, imaPcrs := row.pcrs.Keys,
             rings := RingsFromJson(c, row.learned))
  }

  function Reload(c: Crypto, row: Stored): State {
    if row.boottime == 0 then INITIAL else Restored(c, row)
  }

  class AgentRow {
    var boottime: int
    var nextImaMlEntry: nat
    var imaPcrs: map<int, Bytes>
    var learnedImaKeyrings: Dict<string, RingJson>

    constructor ()
      ensures Model() == EMPTY_ROW
    {
      boottime, nextImaMlEntry, imaPcrs, learnedImaKeyrings := 0, 0, map[], [];
    }

    ghost function Model(): Stored
      reads this
    {
      Stored(boottime, nextImaMlEntry, imaPcrs, learnedImaKeyrings)
    }

    method StoreAttestationState(c: Crypto, state: AgentAttestState)
      modifies this
      ensures Model() == Store(c, old(Model()), state.Model())
    {
      var values := map pcr | pcr in state.imaPcrs && pcr in state.tpmState.hashAlg && pcr in state.tpmState.pcrs ::
        state.tpmState.pcrs[pcr];
      assert values == ImaPcrValues(state.Model());
      if values != map[] {
        boottime := state.boottime;
        nextImaMlEntry := state.nextImaMlEntry;
        imaPcrs := values;
        learnedImaKeyrings := state.imaKeyrings.ToJson(c);
      }
    }

    method Activate(c: Crypto) returns (state: AgentAttestState)
      ensures fresh(state) && state.Model() == Reload(c, Model())
    {
      state := new AgentAttestState();
      if boottime != 0 {
        state.boottime := boottime;
        state.tpmState.pcrs := imaPcrs;
        state.imaPcrs := imaPcrs.Keys;
        state.nextImaMlEntry := nextImaMlEntry;
        state.imaKeyrings := ImaKeyrings.FromJson(c, learnedImaKeyrings);
      }
    }
  }

  /**
   * Storing and reloading keeps the cut (PCRs, count, boot time) and every learned key; the tenant's
   * keyring, the devices and the quote progress are gone.
   */
  lemma StoreReload(c: Crypto, row: Stored, s: State)
    requires ImaPcrValues(s) != map[] && s.boottime != 0
    requires ValidRings(c, s.rings) && LearnedSerializable(c, s.rings) && DerLaw(c)
    ensures Reload(c, Store(c, row, s)) ==
            INITIAL.(boottime := s.boottime, next := s.next, pcrs := ImaPcrValues(s), imaPcrs := ImaPcrValues(s).Keys,
                     rings := Remove(s.rings, TENANT))
  {
    RingsRoundTrip(c, s.rings);
  }

  /** A failed round leaves the row as it was: what a reload finds is the last cut that was stored. */
  lemma ResetNeverStored(c: Crypto, row: Stored, s: State)
    requires forall pcr | UsedPcr(s, pcr) :: pcr in s.imaPcrs
    ensures Store(c, row, ResetIma(s)) == row
  {
    assert ImaPcrValues(ResetIma(s)) == map[];
  }
}
