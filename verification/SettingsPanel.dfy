/** The card settings panel: reading a node's data into field states, and marshalling them back. */
module SettingsPanel {
  import opened Option
  import opened AddressTemplate

  /** A JSON value; `Other` stands for numbers, booleans, null and arrays. */
  datatype Value = Text(text: string) | Object(fields: map<string, Value>) | Other(id: int)

  type Data = map<string, Value>

  const FIELD_MODES := "_FieldModes"
  const CONSTANT := Text("constant")
  const ADDRESS := Text("address")
  const DEFAULT := Text("default")

  datatype Setting = Setting(name: string, dataType: string)

  datatype FieldState = FieldState(mode: Value, constantValue: Value, addressValue: string, dataType: string,
                                   defaultValue: Value)

  predicate Structured(dataType: string) {
    dataType == "Array" || dataType == "Object"
  }

  // Reading

  function FieldModesOf(data: Data): Option<Data> {
    if FIELD_MODES in data && data[FIELD_MODES].Object? then Some(data[FIELD_MODES].fields) else None
  }

  function ExtractFrom(data: Data, name: string): string {
    if name in data && data[name].Text? then Extract(data[name].text) else ""
  }

  predicate HasTemplate(v: Value) {
    v.Text? && exists i :: 0 <= i < |v.text| - 1 && v.text[i] == '{' && v.text[i + 1] == '~'
  }

  function InitialState(setting: Setting, defaults: Data, data: Data): FieldState {
    var name := setting.name;
    var default := if name in defaults then defaults[name] else Text("");
    var modes := FieldModesOf(data);
    var type' := if setting.dataType == "" then "String" else setting.dataType;
    if modes.Some? && name in modes.value then
      var mode := modes.value[name];
      FieldState(mode, if mode == CONSTANT && name in data then data[name] else default,
                 if mode == ADDRESS then ExtractFrom(data, name) else "", type', default)
    else if name in data then
      if HasTemplate(data[name]) then FieldState(ADDRESS, default, ExtractFrom(data, name), type', default)
      else FieldState(CONSTANT, data[name], "", type', default)
    else FieldState(DEFAULT, default, "", type', default)
  }

  /** The state of every field; of two settings with one name the later counts. */
  function InitialStates(schema: seq<Setting>, defaults: Data, data: Data): map<string, FieldState> {
    if schema == [] then map[]
    else
      var last := schema[|schema| - 1];
      InitialStates(schema[..|schema| - 1], defaults, data)[last.name := InitialState(last, defaults, data)]
  }

  // What opening shows, case by case

  /** The mode recorded for a field, if one is. */
  ghost predicate RecordedMode(data: Data, name: string, mode: Value) {
    && "_FieldModes" in data && data["_FieldModes"].Object?
    && name in data["_FieldModes"].fields && data["_FieldModes"].fields[name] == mode
  }

  ghost predicate StandsAt(s: string, t: string, i: int) {
    0 <= i <= |s| - |t| && s[i..i + |t|] == t
  }

  ghost predicate Contains(s: string, t: string) {
    exists i :: StandsAt(s, t, i)
  }

  /** The address in an entry of the data; only text has one. */
  ghost predicate HoldsAddress(data: Data, name: string, address: string) {
    address == if name in data && data[name].Text? then Extract(data[name].text) else ""
  }

  /** The field as the panel shows it. A recorded mode decides; without one text with a template is an address,
      any other entry a constant, and a missing one the default. */
  ghost predicate IsOpened(setting: Setting, defaults: Data, data: Data, st: FieldState) {
    var name := setting.name;
    && st.dataType == (if setting.dataType != "" then setting.dataType else "String")
    && st.defaultValue == (if name in defaults then defaults[name] else Text(""))
    && (forall mode :: RecordedMode(data, name, mode) ==>
          && st.mode == mode
          && st.constantValue == (if mode == Text("constant") && name in data then data[name] else st.defaultValue)
          && (if mode == Text("address") then HoldsAddress(data, name, st.addressValue) else st.addressValue == ""))
    && ((forall mode :: !RecordedMode(data, name, mode)) ==>
          if name !in data then
            st.mode == Text("default") && st.constantValue == st.defaultValue && st.addressValue == ""
          else if data[name].Text? && Contains(data[name].text, "{~") then
            st.mode == Text("address") && st.constantValue == st.defaultValue && HoldsAddress(data, name, st.addressValue)
          else
            st.mode == Text("constant") && st.constantValue == data[name] && st.addressValue == "")
  }

  lemma HasTemplateIs(v: Value)
    ensures HasTemplate(v) <==> v.Text? && Contains(v.text, "{~")
  {
    if v.Text? {
      if i :| 0 <= i < |v.text| - 1 && v.text[i] == '{' && v.text[i + 1] == '~' {
        assert StandsAt(v.text, "{~", i);
      }
      if i :| StandsAt(v.text, "{~", i) {
        assert v.text[i] == v.text[i..i + 2][0] && v.text[i + 1] == v.text[i..i + 2][1];
      }
    }
  }

  lemma InitialStateIs(setting: Setting, defaults: Data, data: Data)
    ensures IsOpened(setting, defaults, data, InitialState(setting, defaults, data))
  {
    var name := setting.name;
    if name in data {
      HasTemplateIs(data[name]);
    }
    hide HasTemplate, Contains, Extract;
    var modes := FieldModesOf(data);
    assert modes.Some? && name in modes.value ==> RecordedMode(data, name, modes.value[name]);
  }

  /** The last setting of a name speaks for it. */
  ghost predicate SpeaksFor(schema: seq<Setting>, i: int) {
    0 <= i < |schema| && forall j :: i < j < |schema| ==> schema[j].name != schema[i].name
  }

  ghost predicate HasSetting(schema: seq<Setting>, name: string) {
    exists i :: 0 <= i < |schema| && schema[i].name == name
  }

  ghost predicate AreOpened(schema: seq<Setting>, defaults: Data, data: Data, states: map<string, FieldState>) {
    && (forall name :: name in states <==> HasSetting(schema, name))
    && (forall i :: SpeaksFor(schema, i) ==>
          schema[i].name in states && IsOpened(schema[i], defaults, data, states[schema[i].name]))
  }

  lemma SettingAdded(init: seq<Setting>, last: Setting, name: string)
    ensures HasSetting(init + [last], name) <==> HasSetting(init, name) || name == last.name
  {
    var schema := init + [last];
    if i :| 0 <= i < |init| && init[i].name == name {
      assert schema[i].name == name;
    }
    assert schema[|init|] == last;
  }

  lemma SpokenFor(init: seq<Setting>, last: Setting, i: int)
    requires SpeaksFor(init + [last], i) && i != |init|
    ensures SpeaksFor(init, i) && init[i] == (init + [last])[i] && init[i].name != last.name
  {
    var schema := init + [last];
    assert schema[|init|] == last;
    assert forall j :: i < j < |init| ==> schema[j] == init[j];
  }

  lemma OpenedStep(init: seq<Setting>, last: Setting, defaults: Data, data: Data, states: map<string, FieldState>, st: FieldState)
    requires AreOpened(init, defaults, data, states) && IsOpened(last, defaults, data, st)
    ensures AreOpened(init + [last], defaults, data, states[last.name := st])
  {
    hide IsOpened, HasSetting, SpeaksFor;
    var schema, next := init + [last], states[last.name := st];
    forall name ensures name in next <==> HasSetting(schema, name) {
      SettingAdded(init, last, name);
    }
    forall i | SpeaksFor(schema, i) ensures 0 <= i < |schema| && schema[i].name in next && IsOpened(schema[i], defaults, data, next[schema[i].name]) {
      SpeaksInside(schema, i);
      if i < |init| {
        SpokenFor(init, last, i);
      }
    }
  }

  lemma SpeaksInside(schema: seq<Setting>, i: int)
    requires SpeaksFor(schema, i)
    ensures 0 <= i < |schema|
  {
  }

  lemma {:induction false} InitialStatesAre(schema: seq<Setting>, defaults: Data, data: Data)
    ensures AreOpened(schema, defaults, data, InitialStates(schema, defaults, data))
  {
    hide IsOpened, InitialState;
    if schema != [] {
      hide AreOpened;
      var init, last := schema[..|schema| - 1], schema[|schema| - 1];
      InitialStatesAre(init, defaults, data);
      InitialStateIs(last, defaults, data);
      OpenedStep(init, last, defaults, data, InitialStates(init, defaults, data), InitialState(last, defaults, data));
      assert schema == init + [last];
    }
  }

  // Marshalling

  /** What the editor of a structured field holds counts before its constant, and text is parsed if it can be. */
  function Written(name: string, st: FieldState, editors: Data, parse: string -> Option<Value>): Value {
    if !Structured(st.dataType) then st.constantValue
    else if "OE_" + name in editors then editors["OE_" + name]
    else if st.constantValue.Text? && Trim(st.constantValue.text) != "" && parse(Trim(st.constantValue.text)).Some?
    then parse(Trim(st.constantValue.text)).value
    else st.constantValue
  }

  /** What becomes of one field's entry in the data. */
  function FieldAfter(before: Option<Value>, name: string, st: FieldState, editors: Data,
                      parse: string -> Option<Value>): Option<Value> {
    if st.mode == CONSTANT then Some(Written(name, st, editors, parse))
    else if st.mode == ADDRESS then Some(Text(Build(Trim(st.addressValue))))
    else if st.mode == DEFAULT then None
    else before
  }

  function Entry(data: Data, k: string): Option<Value> {
    if k in data then Some(data[k]) else None
  }

  predicate Recorded(st: FieldState) {
    st.mode == CONSTANT || st.mode == ADDRESS
  }

  /** The modes worth keeping: those of the fields that are not at their default. */
  ghost function ModesOf(states: map<string, FieldState>): Data {
    map k | k in states && Recorded(states[k]) :: states[k].mode
  }

  /** The marshalled data, entry by entry and without regard to any order of the fields. */
  ghost predicate IsMarshalled(before: Data, after: Data, states: map<string, FieldState>, editors: Data,
                               parse: string -> Option<Value>) {
    && (forall k :: k != FIELD_MODES ==>
          Entry(after, k) == if k in states then FieldAfter(Entry(before, k), k, states[k], editors, parse)
                             else Entry(before, k))
    && Entry(after, FIELD_MODES) == if ModesOf(states) == map[] then None else Some(Object(ModesOf(states)))
  }

  // What marshalling leaves, case by case

  ghost predicate IsTemplateFor(address: string, text: string) {
    text == if address == "" then "" else "{~D:Record." + address + "~}"
  }

  /** A structured field's text is parsed when it can be. */
  ghost predicate Parses(v: Value, parse: string -> Option<Value>, parsed: Value) {
    v.Text? && Trim(v.text) != "" && parse(Trim(v.text)) == Some(parsed)
  }

  /** The value of a constant: as it is, or for an array or an object what its editor holds, or else what its text
      parses to if it does. */
  ghost predicate IsConstant(name: string, st: FieldState, editors: Data, parse: string -> Option<Value>, v: Value) {
    if st.dataType !in {"Array", "Object"} then v == st.constantValue
    else if "OE_" + name in editors then v == editors["OE_" + name]
    else
      && (forall parsed :: Parses(st.constantValue, parse, parsed) ==> v == parsed)
      && ((forall parsed :: !Parses(st.constantValue, parse, parsed)) ==> v == st.constantValue)
  }

  /** A field's entry before and after: a constant's value, an address in its template, nothing for a default, and
      what was there before for any other mode. */
  ghost predicate IsSaved(before: Option<Value>, after: Option<Value>, name: string, st: FieldState, editors: Data,
                          parse: string -> Option<Value>) {
    && (st.mode == Text("constant") ==> after.Some? && IsConstant(name, st, editors, parse, after.value))
    && (st.mode == Text("address") ==> after.Some? && after.value.Text? && IsTemplateFor(Trim(st.addressValue), after.value.text))
    && (st.mode == Text("default") ==> after.None?)
    && (st.mode !in {Text("constant"), Text("address"), Text("default")} ==> after == before)
  }

  /** The record of modes holds exactly the fields that are constants or addresses, and is left out when none is. */
  ghost predicate AreModes(states: map<string, FieldState>, entry: Option<Value>) {
    if exists k :: k in states && states[k].mode in {Text("constant"), Text("address")} then
      && entry.Some? && entry.value.Object?
      && (forall k :: k in entry.value.fields <==> k in states && states[k].mode in {Text("constant"), Text("address")})
      && (forall k :: k in entry.value.fields ==> entry.value.fields[k] == states[k].mode)
    else entry.None?
  }

  ghost predicate AreSaved(before: Data, after: Data, states: map<string, FieldState>, editors: Data,
                           parse: string -> Option<Value>) {
    && (forall k :: k in states && k != "_FieldModes" ==> IsSaved(Entry(before, k), Entry(after, k), k, states[k], editors, parse))
    && (forall k :: k !in states && k != "_FieldModes" ==> Entry(after, k) == Entry(before, k))
    && AreModes(states, Entry(after, "_FieldModes"))
  }

  lemma WrittenIs(name: string, st: FieldState, editors: Data, parse: string -> Option<Value>)
    ensures IsConstant(name, st, editors, parse, Written(name, st, editors, parse))
  {
    hide Trim;
    if st.constantValue.Text? && parse(Trim(st.constantValue.text)).Some? && Trim(st.constantValue.text) != "" {
      assert Parses(st.constantValue, parse, parse(Trim(st.constantValue.text)).value);
    }
  }

  lemma FieldAfterIs(before: Option<Value>, name: string, st: FieldState, editors: Data, parse: string -> Option<Value>)
    ensures IsSaved(before, FieldAfter(before, name, st, editors, parse), name, st, editors, parse)
  {
    WrittenIs(name, st, editors, parse);
    BuildIs(Trim(st.addressValue));
    hide Trim, Written, IsConstant, Build;
  }

  lemma ModesAre(states: map<string, FieldState>, entry: Option<Value>)
    requires entry == if ModesOf(states) == map[] then None else Some(Object(ModesOf(states)))
    ensures AreModes(states, entry)
  {
    var modes := ModesOf(states);
    assert forall k :: k in modes <==> k in states && Recorded(states[k]);
    if k :| k in states && states[k].mode in {Text("constant"), Text("address")} {
      assert k in modes;
    }
  }

  lemma MarshalledIs(before: Data, after: Data, states: map<string, FieldState>, editors: Data,
                     parse: string -> Option<Value>)
    requires IsMarshalled(before, after, states, editors, parse)
    ensures AreSaved(before, after, states, editors, parse)
  {
    hide FieldAfter, IsSaved, AreModes;
    ModesAre(states, Entry(after, FIELD_MODES));
    hide ModesOf;
    forall k | k in states && k != "_FieldModes"
      ensures IsSaved(Entry(before, k), Entry(after, k), k, states[k], editors, parse)
    {
      FieldAfterIs(Entry(before, k), k, states[k], editors, parse);
    }
  }

  class NodeData {
    /** None when the node has no data object. */
    var data: Option<Data>

    function Entries(): Data
      reads this
    {
      if data.Some? then data.value else map[]
    }
  }

  class Panel {
    const schema: seq<Setting>
    const defaults: Data
    const parse: string -> Option<Value>
    var fieldNames: seq<string>
    var fieldStates: map<string, FieldState>
    /** The values the object editors have staged. */
    var editors: Data

    ghost predicate Valid()
      reads this
    {
      forall k :: k in fieldNames <==> k in fieldStates
    }

    constructor (schema: seq<Setting>, defaults: Data, parse: string -> Option<Value>)
      ensures Valid() && this.schema == schema && this.defaults == defaults && this.parse == parse
      ensures fieldStates == map[] && editors == map[]
    {
      this.schema, this.defaults, this.parse := schema, defaults, parse;
      fieldNames, fieldStates, editors := [], map[], map[];
    }

    method InitializeFieldStates(node: NodeData)
      modifies this
      ensures Valid() && editors == old(editors)
      ensures fieldStates == InitialStates(schema, defaults, node.Entries())
      ensures AreOpened(schema, defaults, node.Entries(), fieldStates)
    {
      hide InitialState, AreOpened;
      fieldNames, fieldStates := [], map[];
      var data := node.Entries();
      for i := 0 to |schema|
        invariant Valid() && editors == old(editors) && data == node.Entries()
        invariant fieldStates == InitialStates(schema[..i], defaults, data)
      {
        assert schema[..i + 1][..i] == schema[..i];
        var setting := schema[i];
        if setting.name !in fieldStates {
          fieldNames := fieldNames + [setting.name];
        }
        fieldStates := fieldStates[setting.name := InitialState(setting, defaults, data)];
      }
      assert schema[..|schema|] == schema;
      InitialStatesAre(schema, defaults, data);
    }

    method MarshalFromPanel(node: NodeData)
      requires Valid()
      modifies node
      ensures node.data.Some? && IsMarshalled(old(node.Entries()), node.data.value, fieldStates, editors, parse)
      ensures AreSaved(old(node.Entries()), node.data.value, fieldStates, editors, parse)
    {
      hide AreSaved, Partly, FieldAfter, Written, Build, Trim, Recorded;
      var before := node.Entries();
      var data, modes := before, map[];
      var hasNonDefault := false;
      PartlyNone(before, fieldStates, editors, parse);
      assert fieldNames[..0] == [];
      for i := 0 to |fieldNames|
        invariant Partly(before, data, modes, fieldNames[..i], fieldStates, editors, parse)
        invariant hasNonDefault <==> modes != map[]
      {
        var name := fieldNames[i];
        var st := fieldStates[name];
        assert fieldNames[..i + 1] == fieldNames[..i] + [name];
        PartlyStep(before, data, modes, fieldNames[..i], fieldStates, editors, parse, name);
        if st.mode == CONSTANT {
          data := data[name := Written(name, st, editors, parse)];
          modes := modes[name := CONSTANT];
          hasNonDefault := true;
        } else if st.mode == ADDRESS {
          data := data[name := Text(Build(Trim(st.addressValue)))];
          modes := modes[name := ADDRESS];
          hasNonDefault := true;
        } else if st.mode == DEFAULT {
          data := data - {name};
        }
      }
      assert fieldNames[..|fieldNames|] == fieldNames;
      PartlyAll(before, data, modes, fieldNames, fieldStates, editors, parse);
      if hasNonDefault {
        data := data[FIELD_MODES := Object(modes)];
      } else {
        data := data - {FIELD_MODES};
      }
      node.data := Some(data);
      MarshalledIs(before, data, fieldStates, editors, parse);
    }
  }

  /** The data and modes once the fields in `done` have been marshalled. */
  ghost predicate Partly(before: Data, data: Data, modes: Data, done: seq<string>, states: map<string, FieldState>,
                         editors: Data, parse: string -> Option<Value>) {
    && (forall k :: k in done ==> k in states)
    && (forall k :: Entry(data, k) == if k in done then FieldAfter(Entry(before, k), k, states[k], editors, parse)
                                      else Entry(before, k))
    && (forall k :: k in modes <==> k in done && Recorded(states[k]))
    && (forall k :: k in modes ==> modes[k] == states[k].mode)
  }

  lemma PartlyNone(before: Data, states: map<string, FieldState>, editors: Data, parse: string -> Option<Value>)
    ensures Partly(before, before, map[], [], states, editors, parse)
  {
  }

  lemma PartlyStep(before: Data, data: Data, modes: Data, done: seq<string>, states: map<string, FieldState>,
                   editors: Data, parse: string -> Option<Value>, name: string)
    requires Partly(before, data, modes, done, states, editors, parse) && name in states
    ensures var st := states[name];
            if st.mode == CONSTANT then
              Partly(before, data[name := Written(name, st, editors, parse)], modes[name := CONSTANT], done + [name],
                     states, editors, parse)
            else if st.mode == ADDRESS then
              Partly(before, data[name := Text(Build(Trim(st.addressValue)))], modes[name := ADDRESS], done + [name],
                     states, editors, parse)
            else
              Partly(before, if st.mode == DEFAULT then data - {name} else data, modes, done + [name],
                     states, editors, parse)
  {
    var st := states[name];
    FieldAfterTwice(Entry(before, name), name, st, editors, parse);
    hide Written, Build, Trim, Partly;
    var next := if st.mode == CONSTANT then data[name := Written(name, st, editors, parse)]
                else if st.mode == ADDRESS then data[name := Text(Build(Trim(st.addressValue)))]
                else if st.mode == DEFAULT then data - {name}
                else data;
    var next' := if Recorded(st) then modes[name := st.mode] else modes;
    PartlyExtends(before, data, modes, done, states, editors, parse, name, next, next');
  }

  lemma PartlyExtends(before: Data, data: Data, modes: Data, done: seq<string>, states: map<string, FieldState>,
                      editors: Data, parse: string -> Option<Value>, name: string, next: Data, next': Data)
    requires Partly(before, data, modes, done, states, editors, parse) && name in states
    requires forall k :: k != name ==> Entry(next, k) == Entry(data, k)
    requires Entry(next, name) == FieldAfter(Entry(before, name), name, states[name], editors, parse)
             || (Entry(next, name) == Entry(data, name)
                 && FieldAfter(Entry(before, name), name, states[name], editors, parse) == Entry(before, name))
    requires next' == if Recorded(states[name]) then modes[name := states[name].mode] else modes
    ensures Partly(before, next, next', done + [name], states, editors, parse)
  {
    hide FieldAfter, Recorded, Entry;
    assert forall k :: k in done + [name] <==> k in done || k == name;
  }

  lemma PartlyAll(before: Data, data: Data, modes: Data, done: seq<string>, states: map<string, FieldState>,
                  editors: Data, parse: string -> Option<Value>)
    requires Partly(before, data, modes, done, states, editors, parse)
    requires forall k :: k in done <==> k in states
    ensures modes == ModesOf(states)
    ensures forall k :: k != FIELD_MODES ==>
              Entry(data, k) == if k in states then FieldAfter(Entry(before, k), k, states[k], editors, parse)
                                else Entry(before, k)
  {
    hide FieldAfter;
  }

  /** Marshalling a field is insensitive to having been done before. */
  lemma FieldAfterTwice(before: Option<Value>, name: string, st: FieldState, editors: Data, parse: string -> Option<Value>)
    ensures FieldAfter(FieldAfter(before, name, st, editors, parse), name, st, editors, parse)
            == FieldAfter(before, name, st, editors, parse)
    ensures st.mode == CONSTANT ==> FieldAfter(before, name, st, editors, parse) == Some(Written(name, st, editors, parse))
    ensures st.mode == ADDRESS ==> FieldAfter(before, name, st, editors, parse) == Some(Text(Build(Trim(st.addressValue))))
    ensures st.mode == DEFAULT ==> FieldAfter(before, name, st, editors, parse) == None
    ensures st.mode !in {CONSTANT, ADDRESS, DEFAULT} ==> FieldAfter(before, name, st, editors, parse) == before
  {
  }
}
