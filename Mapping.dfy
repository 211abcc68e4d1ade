/**
 * MappingDefinition and its builder: the elements of an index definition, in
 * the order they were added. The definition keeps the builder's own list.
 */
module Mapping {
  import opened MappingProcessor

  /** The builder's ArrayList of elements. */
  class ElementList {
    var items: seq<MappingDefinitionElement>

    constructor ()
      ensures items == []
    {
      items := [];
    }

    method Add(element: MappingDefinitionElement)
      modifies this
      ensures items == old(items) + [element]
    {
      items := items + [element];
    }
  }

  class MappingDefinition {
    const elements: ElementList

    /** The definition takes the builder's list itself. */
    constructor (builder: MappingDefinitionBuilder)
      ensures elements == builder.elements
    {
      elements := builder.elements;
    }

    /** getElements: the elements now in the list. */
    function GetElements(): (es: seq<MappingDefinitionElement>)
      reads elements
      ensures es == elements.items
    {
      elements.items
    }
  }

  class MappingDefinitionBuilder {
    const elements: ElementList

    /** MappingDefinition.builder(): a builder with a new, empty list. */
    constructor ()
      ensures fresh(elements) && elements.items == []
    {
      elements := new ElementList();
    }

    /** addElement: appends at the end and returns this builder for chaining. */
    method AddElement(element: MappingDefinitionElement) returns (b: MappingDefinitionBuilder)
      modifies elements
      ensures b == this
      ensures elements.items == old(elements.items) + [element]
    {
      elements.Add(element);
      b := this;
    }

    /** build: a new definition over the builder's list. */
    method Build() returns (d: MappingDefinition)
      ensures fresh(d) && d.elements == elements
      ensures d.GetElements() == elements.items
    {
      d := new MappingDefinition(this);
    }
  }

  /** A builder without addElement calls builds a definition without elements. */
  method BuildEmpty() returns (d: MappingDefinition)
    ensures d.GetElements() == []
  {
    var b := new MappingDefinitionBuilder();
    d := b.Build();
  }

  /**
   * Chained addElement calls go into one list: the definition holds exactly
   * the added elements, in call order, one per call.
   */
  method BuildChained(e1: MappingDefinitionElement, e2: MappingDefinitionElement, e3: MappingDefinitionElement)
      returns (d: MappingDefinition)
    ensures d.GetElements() == [e1, e2, e3]
    ensures |d.GetElements()| == 3
  {
    var b := new MappingDefinitionBuilder();
    var b1 := b.AddElement(e1);
    var b2 := b1.AddElement(e2);
    var b3 := b2.AddElement(e3);
    d := b3.Build();
  }

  /** The definition shares the builder's list: an element added after build shows in the definition. */
  method AddAfterBuild(e1: MappingDefinitionElement, e2: MappingDefinitionElement) returns (d: MappingDefinition)
    ensures d.GetElements() == [e1, e2]
  {
    var b := new MappingDefinitionBuilder();
    b := b.AddElement(e1);
    d := b.Build();
    b := b.AddElement(e2);
  }
}
