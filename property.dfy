/** Property: a named, documented value of a PropertyReceiver, with a
    default and a choice of whether it is written to XML.  XMLSerializer is
    modelled by the sequence of calls made on it. */
module Properties {
  import opened Utf

  /** What a PropertyReceiver holds for its properties: the value string
      each property name currently has. */
  type ReceiverState = map<seq<utf32>, seq<utf32>>

  /** d_name, d_help, d_default, d_writeXML. */
  datatype Property = Property(name: seq<utf32>, help: seq<utf32>, default: seq<utf32>, writesXML: bool)

  /** Property::get(receiver): the value the receiver holds for this
      property, or the default while it holds none. */
  function Get(p: Property, receiver: ReceiverState): (r: seq<utf32>)
    ensures p.name in receiver ==> r == receiver[p.name]
    ensures r == p.default || r in receiver.Values
  {
    if p.name in receiver then receiver[p.name] else p.default
  }

  /** Property::set(receiver, value): the receiver now holds `value` for
      this property. */
  function Set(p: Property, receiver: ReceiverState, value: seq<utf32>): (r: ReceiverState)
    ensures r.Keys == receiver.Keys + {p.name}
  {
    receiver[p.name := value]
  }

  /** Property::set then Property::get gives back the value set, and no
      other property's value moves. */
  lemma GetAfterSet(p: Property, q: Property, receiver: ReceiverState, value: seq<utf32>)
    ensures Get(p, Set(p, receiver, value)) == value
    ensures q.name != p.name ==> Get(q, Set(p, receiver, value)) == Get(q, receiver)
  {
  }

  /** isDefault(receiver): get(receiver) == d_default, compared as
      strings. */
  function IsDefault(p: Property, receiver: ReceiverState): (r: bool)
    ensures p.name !in receiver ==> r
    ensures !r ==> p.name in receiver && receiver[p.name] != p.default
  {
    Get(p, receiver) == p.default
  }

  /** A receiver that holds nothing for a property is at its default, and
      after set it is at the default exactly when the value set is the
      default string. */
  lemma IsDefaultAfterSet(p: Property, receiver: ReceiverState, value: seq<utf32>)
    ensures p.name !in receiver ==> IsDefault(p, receiver)
    ensures IsDefault(p, Set(p, receiver, value)) <==> value == p.default
  {
  }

  /** getDefault(receiver): the stored default, which is what isDefault
      compares get against and what a receiver that holds no value for
      the property reads. */
  function GetDefault(p: Property, receiver: ReceiverState): (r: seq<utf32>)
    ensures IsDefault(p, receiver) <==> Get(p, receiver) == r
    ensures r == Get(p, map[])
  {
    p.default
  }

  // ---------------------------------------------------------------------
  // XMLSerializer as a trace
  // ---------------------------------------------------------------------

  /** One call on an XMLSerializer. */
  datatype XmlStep =
    | OpenTag(tag: seq<utf32>)
    | Attribute(attr: seq<utf32>, value: seq<utf32>)
    | Text(text: seq<utf32>)
    | CloseTag

  /** The serializer, as the calls made on it so far. */
  class XmlSerializer {
    var trace: seq<XmlStep>

    constructor()
      ensures trace == []
    {
      trace := [];
    }

    /** openTag(name) */
    method OpenTag(name: seq<utf32>)
      modifies this
      ensures trace == old(trace) + [XmlStep.OpenTag(name)]
    {
      trace := trace + [XmlStep.OpenTag(name)];
    }

    /** attribute(name, value) */
    method Attribute(name: seq<utf32>, value: seq<utf32>)
      modifies this
      ensures trace == old(trace) + [XmlStep.Attribute(name, value)]
    {
      trace := trace + [XmlStep.Attribute(name, value)];
    }

    /** text(text) */
    method Text(text: seq<utf32>)
      modifies this
      ensures trace == old(trace) + [XmlStep.Text(text)]
    {
      trace := trace + [XmlStep.Text(text)];
    }

    /** closeTag() */
    method CloseTag()
      modifies this
      ensures trace == old(trace) + [XmlStep.CloseTag]
    {
      trace := trace + [XmlStep.CloseTag];
    }
  }

  /** "Property", "Name", "Value" and '\n'. */
  const PROPERTY_TAG: seq<utf32> := [0x50, 0x72, 0x6F, 0x70, 0x65, 0x72, 0x74, 0x79]
  const NAME_ATTR: seq<utf32> := [0x4E, 0x61, 0x6D, 0x65]
  const VALUE_ATTR: seq<utf32> := [0x56, 0x61, 0x6C, 0x75, 0x65]
  const NEWLINE: utf32 := 0x0A

  /** What writeXMLToStream emits for a property whose current value is
      `value`. */
  function Emission(p: Property, value: seq<utf32>): seq<XmlStep>
  {
    if !p.writesXML then []
    else
      [XmlStep.OpenTag(PROPERTY_TAG), XmlStep.Attribute(NAME_ATTR, p.name)]
      + [if NEWLINE in value then XmlStep.Text(value) else XmlStep.Attribute(VALUE_ATTR, value)]
      + [XmlStep.CloseTag]
  }

  /** writeXMLToStream(receiver, xml_stream): nothing for a property that
      does not write XML; otherwise a Property element naming the property,
      whose value is a text node when it spans lines and a Value attribute
      when it does not. */
  method WriteXMLToStream(p: Property, receiver: ReceiverState, xml: XmlSerializer)
    modifies xml
    ensures xml.trace == old(xml.trace) + Emission(p, Get(p, receiver))
  {
    if p.writesXML {
      xml.OpenTag(PROPERTY_TAG);
      xml.Attribute(NAME_ATTR, p.name);
      var value := Get(p, receiver);
      // value.find('\n') != npos
      if NEWLINE in value {
        xml.Text(value);
      } else {
        xml.Attribute(VALUE_ATTR, Get(p, receiver));
      }
      xml.CloseTag();
    }
  }

  /** How many tags a trace opens, less how many it closes. */
  function Depth(t: seq<XmlStep>): int
  {
    if t == [] then 0
    else Depth(t[..|t| - 1]) + (match t[|t| - 1] case OpenTag(_) => 1 case CloseTag => -1 case _ => 0)
  }

  /** How many tags a trace opens. */
  function Opens(t: seq<XmlStep>): nat
  {
    if t == [] then 0
    else Opens(t[..|t| - 1]) + (if t[|t| - 1].OpenTag? then 1 else 0)
  }

  /** No prefix of the trace closes more tags than it opened. */
  predicate Nested(t: seq<XmlStep>)
  {
    forall k :: 0 <= k <= |t| ==> Depth(t[..k]) >= 0
  }

  /** A written property is one element: a single openTag first, its
      closeTag last, nothing else opening or closing, and the value written
      in exactly one of the two forms; a property that does not write XML
      emits nothing. */
  lemma {:induction false} EmissionIsOneElement(p: Property, value: seq<utf32>)
    ensures var t := Emission(p, value);
            && (!p.writesXML <==> t == [])
            && Nested(t) && Depth(t) == 0
            && Opens(t) == (if p.writesXML then 1 else 0)
            && (p.writesXML ==>
                  && |t| == 4 && t[0] == XmlStep.OpenTag(PROPERTY_TAG) && t[3] == XmlStep.CloseTag
                  && t[1] == XmlStep.Attribute(NAME_ATTR, p.name)
                  && (t[2] == XmlStep.Text(value) <==> NEWLINE in value)
                  && (t[2] == XmlStep.Attribute(VALUE_ATTR, value) <==> NEWLINE !in value))
  {
    var t := Emission(p, value);
    if p.writesXML {
      assert t[..0] == [];
      assert t[..1] == [t[0]] && t[..1][..0] == [];
      assert t[..2][..1] == t[..1];
      assert t[..3][..2] == t[..2];
      assert t[..4] == t && t[..3] == t[..4][..3];
      assert !t[2].OpenTag? && !t[2].CloseTag?;
      assert Depth(t[..1]) == 1;
      assert Depth(t[..2]) == 1;
      assert Depth(t[..3]) == 1;
      assert Depth(t) == 0;
      assert Opens(t[..1]) == 1 && Opens(t[..2]) == 1 && Opens(t[..3]) == 1;
    } else {
      assert t[..0] == [];
    }
  }

  /** Depth adds up over concatenation. */
  lemma {:induction false} DepthAppend(a: seq<XmlStep>, b: seq<XmlStep>)
    ensures Depth(a + b) == Depth(a) + Depth(b)
    decreases |b|
  {
    if b != [] {
      var b' := b[..|b| - 1];
      assert (a + b)[..|a + b| - 1] == a + b';
      DepthAppend(a, b');
    } else {
      assert a + b == a;
    }
  }

  /** Writing a balanced piece after a balanced document keeps it
      balanced: properties written one after another nest. */
  lemma NestedAppend(a: seq<XmlStep>, b: seq<XmlStep>)
    requires Nested(a) && Nested(b) && Depth(a) >= 0
    ensures Nested(a + b) && Depth(a + b) == Depth(a) + Depth(b)
  {
    DepthAppend(a, b);
    forall k | 0 <= k <= |a + b|
      ensures Depth((a + b)[..k]) >= 0
    {
      if k <= |a| {
        assert (a + b)[..k] == a[..k];
      } else {
        assert (a + b)[..k] == a + b[..k - |a|];
        DepthAppend(a, b[..k - |a|]);
      }
    }
  }
}
