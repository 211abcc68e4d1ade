/**
 * MappingDefinitionElement and its builder: which properties of an entity are
 * indexed and how. The built element takes over the builder's fields as they
 * are, including the builder's own parameter map (it is shared, not copied).
 */
module MappingProcessor {
  import opened Wrappers

  /** A FieldMappingStrategy implementation class, by name. */
  datatype StrategyClass = StrategyClass(name: string)

  /** A FieldMappingStrategy instance, by the name of its class. */
  datatype FieldMappingStrategy = FieldMappingStrategy(className: string)

  /** A parsed JSON object, as field names and their JSON text. */
  datatype ObjectNode = ObjectNode(fields: map<string, string>)

  /** FieldConfiguration: the only kind built here is NativeFieldConfiguration around a JSON object. */
  datatype FieldConfiguration = NativeFieldConfiguration(configuration: ObjectNode)

  /** A PropertyValueExtractor, by the name of its class. */
  datatype PropertyValueExtractor = PropertyValueExtractor(className: string)

  /** A mapping parameter value (a Java Object). */
  datatype Value = StringValue(s: string) | IntValue(i: int) | BoolValue(b: bool)

  /** Everything an element holds besides its parameters. */
  datatype ElementFields = ElementFields(
    includedProperties: seq<string>,
    excludedProperties: seq<string>,
    fieldMappingStrategyClass: Option<StrategyClass>,
    fieldMappingStrategy: Option<FieldMappingStrategy>,
    explicitFieldConfiguration: Option<FieldConfiguration>,
    explicitPropertyValueExtractor: Option<PropertyValueExtractor>,
    explicitOrder: Option<int>)

  /** The fields of a fresh builder: no properties, nothing configured. */
  function DefaultFields(): (f: ElementFields)
    ensures f.includedProperties == [] && f.excludedProperties == []
    ensures f.explicitOrder.None? && f.fieldMappingStrategyClass.None? && f.fieldMappingStrategy.None?
    ensures f.explicitFieldConfiguration.None? && f.explicitPropertyValueExtractor.None?
  {
    ElementFields([], [], None, None, None, None, None)
  }

  /** A HashMap<String, Object> of parameters. */
  class ParameterMap {
    var entries: map<string, Value>

    constructor (entries: map<string, Value>)
      ensures this.entries == entries
    {
      this.entries := entries;
    }

    method Put(name: string, value: Value)
      modifies this
      ensures entries == old(entries)[name := value]
    {
      entries := entries[name := value];
    }
  }

  /** The entries of a nullable parameter map; none when it is absent. */
  function EntriesOf(m: Option<ParameterMap>): (entries: map<string, Value>)
    reads if m.Some? then {m.value} else {}
    ensures m.None? ==> entries == map[]
    ensures m.Some? ==> entries == m.value.entries
  {
    if m.Some? then m.value.entries else map[]
  }

  class MappingDefinitionElement {
    const fields: ElementFields
    /** The builder's map, or none for the immutable empty map. */
    const parameters: Option<ParameterMap>

    /** The element takes every field of the builder; a builder without parameters gives the empty map. */
    constructor (builder: MappingDefinitionElementBuilder)
      ensures fields == builder.Fields()
      ensures parameters == builder.parameters
      ensures GetParameters() == EntriesOf(builder.parameters)
    {
      fields := builder.Fields();
      parameters := builder.parameters;
    }

    function GetIncludedProperties(): (r: seq<string>)
      ensures r == fields.includedProperties
    {
      fields.includedProperties
    }

    function GetExcludedProperties(): (r: seq<string>)
      ensures r == fields.excludedProperties
    {
      fields.excludedProperties
    }

    function GetExplicitOrder(): (r: Option<int>)
      ensures r == fields.explicitOrder
    {
      fields.explicitOrder
    }

    /** The parameters as they are now in the shared map; empty when the builder had none. */
    function GetParameters(): (ps: map<string, Value>)
      reads if parameters.Some? then {parameters.value} else {}
      ensures parameters.None? ==> ps == map[]
      ensures parameters.Some? ==> ps == parameters.value.entries
    {
      EntriesOf(parameters)
    }
  }

  class MappingDefinitionElementBuilder {
    var includedProperties: seq<string>
    var excludedProperties: seq<string>
    var fieldMappingStrategyClass: Option<StrategyClass>
    var fieldMappingStrategy: Option<FieldMappingStrategy>
    var explicitFieldConfiguration: Option<FieldConfiguration>
    var explicitPropertyValueExtractor: Option<PropertyValueExtractor>
    var explicitOrder: Option<int>
    /** Created on the first addParameter or withParameters; absent until then. */
    var parameters: Option<ParameterMap>

    /** MappingDefinitionElement.builder(): empty property lists, nothing else set. */
    constructor ()
      ensures Fields() == DefaultFields()
      ensures parameters.None?
    {
      includedProperties := [];
      excludedProperties := [];
      fieldMappingStrategyClass := None;
      fieldMappingStrategy := None;
      explicitFieldConfiguration := None;
      explicitPropertyValueExtractor := None;
      explicitOrder := None;
      parameters := None;
    }

    /** The builder's fields other than the parameter map. */
    function Fields(): (f: ElementFields)
      reads this
      ensures f.includedProperties == includedProperties && f.excludedProperties == excludedProperties
      ensures f.explicitOrder == explicitOrder && f.explicitFieldConfiguration == explicitFieldConfiguration
      ensures f.fieldMappingStrategyClass == fieldMappingStrategyClass && f.fieldMappingStrategy == fieldMappingStrategy
      ensures f.explicitPropertyValueExtractor == explicitPropertyValueExtractor
    {
      ElementFields(includedProperties, excludedProperties, fieldMappingStrategyClass, fieldMappingStrategy,
                    explicitFieldConfiguration, explicitPropertyValueExtractor, explicitOrder)
    }

    /** includeProperties: replaces the included properties; the last call wins. */
    method IncludeProperties(properties: seq<string>) returns (b: MappingDefinitionElementBuilder)
      modifies this
      ensures b == this
      ensures Fields() == old(Fields()).(includedProperties := properties)
      ensures parameters == old(parameters)
    {
      includedProperties := properties;
      b := this;
    }

    /** excludeProperties: replaces the excluded properties; the last call wins. */
    method ExcludeProperties(properties: seq<string>) returns (b: MappingDefinitionElementBuilder)
      modifies this
      ensures b == this
      ensures Fields() == old(Fields()).(excludedProperties := properties)
      ensures parameters == old(parameters)
    {
      excludedProperties := properties;
      b := this;
    }

    method WithFieldMappingStrategyClass(c: Option<StrategyClass>) returns (b: MappingDefinitionElementBuilder)
      modifies this
      ensures b == this
      ensures Fields() == old(Fields()).(fieldMappingStrategyClass := c)
      ensures parameters == old(parameters)
    {
      fieldMappingStrategyClass := c;
      b := this;
    }

    method WithFieldMappingStrategy(s: Option<FieldMappingStrategy>) returns (b: MappingDefinitionElementBuilder)
      modifies this
      ensures b == this
      ensures Fields() == old(Fields()).(fieldMappingStrategy := s)
      ensures parameters == old(parameters)
    {
      fieldMappingStrategy := s;
      b := this;
    }

    /** withParameters: a new map holding a copy of the given entries replaces the earlier parameters. */
    method WithParameters(entries: map<string, Value>) returns (b: MappingDefinitionElementBuilder)
      modifies this
      ensures b == this
      ensures Fields() == old(Fields())
      ensures parameters.Some? && fresh(parameters.value) && parameters.value.entries == entries
    {
      var m := new ParameterMap(entries);
      parameters := Some(m);
      b := this;
    }

    /** addParameter: creates the map when there is none, then puts the entry into it. */
    method AddParameter(name: string, value: Value) returns (b: MappingDefinitionElementBuilder)
      modifies this, if parameters.Some? then {parameters.value} else {}
      ensures b == this
      ensures Fields() == old(Fields())
      ensures parameters.Some? && parameters.value.entries == old(EntriesOf(parameters))[name := value]
      ensures old(parameters).Some? ==> parameters == old(parameters)
      ensures old(parameters).None? ==> fresh(parameters.value)
    {
      if parameters.None? {
        var m := new ParameterMap(map[]);
        parameters := Some(m);
      }
      parameters.value.Put(name, value);
      b := this;
    }

    /** withNativeConfiguration(ObjectNode): the configuration becomes a NativeFieldConfiguration. */
    method WithNativeConfiguration(configuration: ObjectNode) returns (b: MappingDefinitionElementBuilder)
      modifies this
      ensures b == this
      ensures Fields() == old(Fields()).(explicitFieldConfiguration := Some(NativeFieldConfiguration(configuration)))
      ensures parameters == old(parameters)
    {
      explicitFieldConfiguration := Some(NativeFieldConfiguration(configuration));
      b := this;
    }

    method WithPropertyValueExtractor(e: Option<PropertyValueExtractor>) returns (b: MappingDefinitionElementBuilder)
      modifies this
      ensures b == this
      ensures Fields() == old(Fields()).(explicitPropertyValueExtractor := e)
      ensures parameters == old(parameters)
    {
      explicitPropertyValueExtractor := e;
      b := this;
    }

    method WithExplicitOrder(order: int) returns (b: MappingDefinitionElementBuilder)
      modifies this
      ensures b == this
      ensures Fields() == old(Fields()).(explicitOrder := Some(order))
      ensures parameters == old(parameters)
    {
      explicitOrder := Some(order);
      b := this;
    }

    /** build: a new element with the builder's fields and the builder's parameter map. */
    method Build() returns (e: MappingDefinitionElement)
      ensures fresh(e)
      ensures e.fields == Fields() && e.parameters == parameters
      ensures e.GetParameters() == EntriesOf(parameters)
    {
      e := new MappingDefinitionElement(this);
    }
  }

  /** A fresh builder builds an element with no properties, no explicit order and no parameters. */
  method BuildDefault() returns (e: MappingDefinitionElement)
    ensures e.GetIncludedProperties() == [] && e.GetExcludedProperties() == []
    ensures e.GetExplicitOrder() == None
    ensures e.GetParameters() == map[]
  {
    var b := new MappingDefinitionElementBuilder();
    e := b.Build();
  }

  /**
   * includeProperties twice, two parameters under the same name and an
   * explicit order: the last properties and the last value win, earlier
   * parameter names are kept.
   */
  method BuildConfigured(p1: seq<string>, p2: seq<string>, k1: string, k2: string, v1: Value, v2: Value, v3: Value, order: int)
      returns (e: MappingDefinitionElement)
    requires k1 != k2
    ensures e.GetIncludedProperties() == p2
    ensures e.GetExcludedProperties() == []
    ensures e.GetExplicitOrder() == Some(order)
    ensures e.GetParameters() == map[k1 := v3, k2 := v2]
  {
    var b := new MappingDefinitionElementBuilder();
    b := b.IncludeProperties(p1);
    b := b.AddParameter(k1, v1);
    ghost var m := b.parameters.value;
    assert m.entries == map[k1 := v1];
    b := b.AddParameter(k2, v2);
    assert b.parameters == Some(m) && m.entries == map[k1 := v1, k2 := v2];
    b := b.IncludeProperties(p2);
    b := b.AddParameter(k1, v3);
    assert b.parameters == Some(m) && m.entries == map[k1 := v3, k2 := v2];
    b := b.WithExplicitOrder(order);
    assert b.Fields() == DefaultFields().(includedProperties := p2, explicitOrder := Some(order));
    e := b.Build();
  }

  /** withParameters drops the parameters added before it. */
  method ReplaceParameters(k: string, v: Value, entries: map<string, Value>) returns (e: MappingDefinitionElement)
    ensures e.GetParameters() == entries
  {
    var b := new MappingDefinitionElementBuilder();
    b := b.AddParameter(k, v);
    b := b.WithParameters(entries);
    e := b.Build();
  }

  /** The element shares the builder's map: a parameter added after build shows in the element too. */
  method AddAfterBuild(k: string, v: Value) returns (e: MappingDefinitionElement)
    ensures e.GetParameters() == map[k := v]
  {
    var b := new MappingDefinitionElementBuilder();
    b := b.WithParameters(map[]);
    e := b.Build();
    b := b.AddParameter(k, v);
  }
}
