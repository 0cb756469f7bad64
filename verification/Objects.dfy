/// Objects as a token keeps them (src/object/mod.rs): attributes by type, and
/// the handle and session an object is tied to while the program runs.
module Objects {
  import opened Common

  datatype ObjectClass =
    | CKO_CERTIFICATE
    | CKO_PUBLIC_KEY
    | CKO_PRIVATE_KEY
    | CKO_SECRET_KEY
    | CKO_TRUST
    | CKO_OTHER(code: nat)

  datatype AttributeType =
    | CKA_CLASS
    | CKA_TOKEN
    | CKA_PRIVATE
    | CKA_DESTROYABLE
    | CKA_UNIQUE_ID
    | CKA_ISSUER
    | CKA_SERIAL_NUMBER
    | CKA_ID
    | CKA_KEY_TYPE
    | CKA_OTHER(code: nat)

  datatype AttributeValue =
    | ClassValue(class_: ObjectClass)
    | BoolValue(flag: bool)
    | StringValue(text: string)
    | BytesValue(bytes: seq<nat>)

  type Attributes = map<AttributeType, AttributeValue>

  /// CK_INVALID_HANDLE: no handle yet, or no session.
  const INVALID_HANDLE: nat := 0

  datatype Object = Object(class_: ObjectClass, attributes: Attributes, handle: nat, session: nat) {
    predicate Flag(t: AttributeType, default_: bool) {
      if t in attributes && attributes[t].BoolValue? then attributes[t].flag else default_
    }

    predicate IsToken() { Flag(CKA_TOKEN, false) }

    predicate IsPrivate() { Flag(CKA_PRIVATE, true) }

    predicate IsDestroyable() { Flag(CKA_DESTROYABLE, false) }

    /// An object made by the token itself rather than through a session.
    predicate IsBuiltin() { session == INVALID_HANDLE }

    /// Every factory gives an object its class attribute and a unique id.
    predicate WellFormed() {
      && CKA_CLASS in attributes && attributes[CKA_CLASS] == ClassValue(class_)
      && CKA_UNIQUE_ID in attributes && attributes[CKA_UNIQUE_ID].StringValue?
    }

    function UniqueId(): string
      requires WellFormed()
    {
      attributes[CKA_UNIQUE_ID].text
    }

    predicate MatchTemplate(template: Attributes) {
      forall t :: t in template ==> t in attributes && attributes[t] == template[t]
    }
  }

  /// What an object says of itself, and what it counts as when it does not say:
  /// tied to a session, private and not destroyable.
  lemma FlagsExactly(o: Object)
    ensures o.IsToken() <==> (CKA_TOKEN, BoolValue(true)) in o.attributes.Items
    ensures !o.IsPrivate() <==> (CKA_PRIVATE, BoolValue(false)) in o.attributes.Items
    ensures o.IsDestroyable() <==> (CKA_DESTROYABLE, BoolValue(true)) in o.attributes.Items
    ensures o.IsBuiltin() <==> o.session == 0
  {
  }

  /// A template matches exactly when each of its attributes is one of the
  /// object.
  lemma MatchExactly(o: Object, template: Attributes)
    ensures o.MatchTemplate(template) <==> template.Items <= o.attributes.Items
  {
    if template.Items <= o.attributes.Items {
      forall t | t in template
        ensures t in o.attributes && o.attributes[t] == template[t]
      {
        assert (t, template[t]) in template.Items;
      }
    }
  }
}
