// The thermostat's relay rule: model_out becomes a copy of model_in whose
// relays are then set from model_in's mode, setpoints and ambient reading.
// Relay Y is the cooling call and relay W the heating call.

module TstatLogic {
  import opened Common
  import opened TstatModel

  /**
   * The settings tstat_logic_update_model leaves in model_out: OFF drops both
   * relays, COOL calls for cooling while the ambient is above the cooling
   * setpoint, HEAT calls for heat while it is below the heating setpoint, and
   * any other mode keeps the copied relays.  Nothing but the relays changes.
   */
  function Control(s: Settings): (r: Settings)
    ensures r.ambient == s.ambient && r.coolSetpoint == s.coolSetpoint &&
            r.heatSetpoint == s.heatSetpoint && r.systemMode == s.systemMode
    ensures s.systemMode == SYSTEM_MODE_OFF ==> !r.relayY && !r.relayW
    ensures s.systemMode == SYSTEM_MODE_COOL ==> (r.relayY <==> s.coolSetpoint < s.ambient) && !r.relayW
    ensures s.systemMode == SYSTEM_MODE_HEAT ==> !r.relayY && (r.relayW <==> s.heatSetpoint > s.ambient)
    ensures !(SYSTEM_MODE_OFF <= s.systemMode <= SYSTEM_MODE_HEAT) ==> r == s
  {
    if s.systemMode == SYSTEM_MODE_OFF then s.(relayY := false, relayW := false)
    else if s.systemMode == SYSTEM_MODE_COOL then s.(relayY := s.coolSetpoint < s.ambient, relayW := false)
    else if s.systemMode == SYSTEM_MODE_HEAT then s.(relayY := false, relayW := s.heatSetpoint > s.ambient)
    else s
  }

  /**
   * tstat_logic_update_model: copies model_in into model_out (memcpy, so the
   * two must not overlap), then sets model_out's relays from model_in.  The
   * mode the switch tests is model_in's.
   */
  method UpdateModel(modelIn: Model, modelOut: Model) returns (r: Model)
    requires modelIn != modelOut
    modifies modelOut
    ensures r == modelOut
    ensures modelIn.Snapshot() == old(modelIn.Snapshot())
    ensures modelOut.Snapshot() == Control(modelIn.Snapshot())
  {
    modelOut.ambient, modelOut.coolSetpoint, modelOut.heatSetpoint :=
      modelIn.ambient, modelIn.coolSetpoint, modelIn.heatSetpoint;
    modelOut.relayY, modelOut.relayW, modelOut.systemMode :=
      modelIn.relayY, modelIn.relayW, modelIn.systemMode;
    var mode := modelIn.GetSystemMode();
    if mode == SYSTEM_MODE_OFF {
      modelOut.SetRelayY(false);
      modelOut.SetRelayW(false);
    } else if mode == SYSTEM_MODE_COOL {
      modelOut.SetRelayY(modelIn.GetCoolSetpoint() < modelIn.GetAmbient());
      modelOut.SetRelayW(false);
    } else if mode == SYSTEM_MODE_HEAT {
      modelOut.SetRelayY(false);
      modelOut.SetRelayW(modelIn.GetHeatSetpoint() > modelIn.GetAmbient());
    }
    return modelOut;
  }

  // ---------------------------------------------------------------------------
  // Properties of the rule

  /** In a known mode the thermostat never calls for heating and cooling at once. */
  lemma NeverHeatAndCool(s: Settings)
    requires SYSTEM_MODE_OFF <= s.systemMode <= SYSTEM_MODE_HEAT
    ensures !(Control(s).relayY && Control(s).relayW)
  {
  }

  /** Updating an updated model changes nothing more. */
  lemma ControlIdempotent(s: Settings)
    ensures Control(Control(s)) == Control(s)
  {
  }

  /** In a known mode the relays the model held before the update play no part in it. */
  lemma ControlIgnoresOldRelays(s: Settings, y: bool, w: bool)
    requires SYSTEM_MODE_OFF <= s.systemMode <= SYSTEM_MODE_HEAT
    ensures Control(s.(relayY := y, relayW := w)) == Control(s)
  {
  }

  /** With the ambient between the two setpoints no relay is energised, whatever the known mode. */
  lemma NoCallInsideSetpoints(s: Settings)
    requires SYSTEM_MODE_OFF <= s.systemMode <= SYSTEM_MODE_HEAT
    requires s.heatSetpoint <= s.ambient <= s.coolSetpoint
    ensures !Control(s).relayY && !Control(s).relayW
  {
  }

  /**
   * The sequence the file's own test runs: ambient 2000 with setpoints 1980
   * and 2020 and both relays on, updated in OFF, then switched to COOL and
   * updated, then switched to HEAT and updated.
   */
  lemma DemonstrationSequence()
    ensures var s0 := Settings(2000, 1980, 2020, true, true, SYSTEM_MODE_OFF);
            var s1 := Control(s0);
            var s2 := Control(s1.(systemMode := SYSTEM_MODE_COOL));
            var s3 := Control(s2.(systemMode := SYSTEM_MODE_HEAT));
            !s1.relayY && !s1.relayW && s2.relayY && !s2.relayW && !s3.relayY && s3.relayW &&
            s3.ambient == 2000 && s3.coolSetpoint == 1980 && s3.heatSetpoint == 2020
  {
  }
}
