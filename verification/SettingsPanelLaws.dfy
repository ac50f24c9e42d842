/** Saving the settings panel and opening it again. */
module SettingsPanelLaws {
  import opened Option
  import opened AddressTemplate
  import opened SettingsPanel

  /** The setting that speaks for a name. */
  function SettingFor(schema: seq<Setting>, name: string): (r: Option<Setting>)
    ensures r.Some? ==> r.value.name == name
  {
    if schema == [] then None
    else if schema[|schema| - 1].name == name then Some(schema[|schema| - 1])
    else SettingFor(schema[..|schema| - 1], name)
  }

  lemma {:induction false} InitialStatesAt(schema: seq<Setting>, defaults: Data, data: Data, name: string)
    ensures name in InitialStates(schema, defaults, data) <==> SettingFor(schema, name).Some?
    ensures name in InitialStates(schema, defaults, data) ==>
              InitialStates(schema, defaults, data)[name] == InitialState(SettingFor(schema, name).value, defaults, data)
  {
    hide InitialState;
    if schema != [] {
      InitialStatesAt(schema[..|schema| - 1], defaults, data, name);
    }
  }

  /** Nothing of what the field says is lost by saving it: its mode is one the panel offers, and an address,
      once trimmed, can be taken back out of its template. */
  predicate Saveable(st: FieldState) {
    st.mode == CONSTANT || st.mode == DEFAULT || (st.mode == ADDRESS && Extractable(Trim(st.addressValue)))
  }

  /** The reopened field says what the saved one did: the same mode, and under it the same constant or,
      trimmed, the same address. */
  predicate Restores(name: string, saved: FieldState, again: FieldState, editors: Data, parse: string -> Option<Value>) {
    && again.mode == saved.mode
    && (saved.mode == CONSTANT ==> again.constantValue == Written(name, saved, editors, parse))
    && (saved.mode == ADDRESS ==> again.addressValue == Trim(saved.addressValue))
  }

  /** Opening the panel on what it saved restores a field exactly when the field is saveable, whatever else
      the node's data held and whether or not any field is away from its default. */
  lemma ReopenRestoresExact(schema: seq<Setting>, defaults: Data, before: Data, after: Data,
                            states: map<string, FieldState>, editors: Data, parse: string -> Option<Value>, name: string)
    requires forall k :: k in states <==> SettingFor(schema, k).Some?
    requires FIELD_MODES !in states && name in states
    requires IsMarshalled(before, after, states, editors, parse)
    ensures name in InitialStates(schema, defaults, after)
    ensures Restores(name, states[name], InitialStates(schema, defaults, after)[name], editors, parse)
            <==> Saveable(states[name])
  {
    InitialStatesAt(schema, defaults, after, name);
    var st, setting := states[name], SettingFor(schema, name).value;
    var again := InitialState(setting, defaults, after);
    SavedEntry(before, after, states, editors, parse, name);
    hide IsMarshalled, Written, Extractable, Build, Extract, Trim, HasTemplate;
    if st.mode == ADDRESS {
      assert again.addressValue == Extract(Build(Trim(st.addressValue)));
      ExtractBuildExact(Trim(st.addressValue));
    }
  }

  lemma SavedEntry(before: Data, after: Data, states: map<string, FieldState>, editors: Data,
                   parse: string -> Option<Value>, name: string)
    requires FIELD_MODES !in states && name in states
    requires IsMarshalled(before, after, states, editors, parse)
    ensures Entry(after, name) == FieldAfter(Entry(before, name), name, states[name], editors, parse)
    ensures FieldModesOf(after).Some? && name in FieldModesOf(after).value <==> Recorded(states[name])
    ensures Recorded(states[name]) ==> FieldModesOf(after).value[name] == states[name].mode
  {
    hide FieldAfter;
    var modes := ModesOf(states);
    assert name in modes <==> Recorded(states[name]);
    assert FIELD_MODES in after ==> Entry(after, FIELD_MODES) == Some(after[FIELD_MODES]);
  }

  /** Data from before modes were recorded: opening the panel and saving at once leaves a plain field's entry
      as it was exactly when the entry is not a template string or is one whole template. */
  lemma LegacySaveExact(schema: seq<Setting>, defaults: Data, data: Data, after: Data, editors: Data,
                        parse: string -> Option<Value>, name: string)
    requires FIELD_MODES !in data && SettingFor(schema, FIELD_MODES).None?
    requires SettingFor(schema, name).Some? && !Structured(SettingFor(schema, name).value.dataType)
    requires IsMarshalled(data, after, InitialStates(schema, defaults, data), editors, parse)
    ensures Entry(after, name) == Entry(data, name)
            <==> (name in data && HasTemplate(data[name]) ==> IsTemplate(data[name].text))
  {
    InitialStatesAt(schema, defaults, data, name);
    InitialStatesAt(schema, defaults, data, FIELD_MODES);
    var st := InitialState(SettingFor(schema, name).value, defaults, data);
    SavedEntry(data, after, InitialStates(schema, defaults, data), editors, parse, name);
    if name in data && HasTemplate(data[name]) {
      hide IsMarshalled, Build, Trim, Extract, IsTemplate;
      assert Entry(after, name) == Some(Text(Build(Trim(Extract(data[name].text)))));
      RebuildExact(data[name].text);
    }
  }
}
