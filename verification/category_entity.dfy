/**
 * The Category entity as its unit tests pin it down: the defaults the
 * constructor applies, the `create` factory that validates once, the
 * mutators that change one attribute (the name and description mutators
 * validating again), and the validator mapping each broken field to its
 * messages.
 *
 * Identifier generation and the clock are inputs here: the constructor
 * receives the identifier it would generate and the current time.
 */
module CategoryEntity {
  import opened Wrappers
  import opened ClassValidator

  /** The identifier value object; its format check is not part of this model. */
  datatype Uuid = Uuid(id: string)

  /** A point in time, as an opaque number. */
  type Timestamp = int

  /** The constructor's props. `None` stands for a null or undefined id or date. */
  datatype CategoryConstructorProps = CategoryConstructorProps(
    category_id: Option<Uuid>,
    name: Value,
    description: Value,
    is_active: Value,
    created_at: Option<Timestamp>)

  /** The attributes of a category at one moment. */
  datatype CategoryState = CategoryState(
    category_id: Uuid,
    name: Value,
    description: Value,
    is_active: Value,
    created_at: Timestamp)

  /** Only a name given: every other prop null or undefined. */
  function NameOnly(name: Value): CategoryConstructorProps {
    CategoryConstructorProps(None, name, Undefined, Undefined, None)
  }

  /** The attributes the constructor sets: each prop as given, or its default when null or undefined. */
  function Initial(props: CategoryConstructorProps, generatedId: Uuid, now: Timestamp): CategoryState {
    CategoryState(
      if props.category_id.Some? then props.category_id.value else generatedId,
      props.name,
      if Nullish(props.description) then Null else props.description,
      if Nullish(props.is_active) then Bool(true) else props.is_active,
      if props.created_at.Some? then props.created_at.value else now)
  }

  /** A category built from a name alone: fresh id, null description, active, created now. */
  lemma InitialDefaults(name: Value, generatedId: Uuid, now: Timestamp)
    ensures var s := Initial(NameOnly(name), generatedId, now);
      && s.category_id == generatedId
      && s.name == name
      && s.description == Null
      && s.is_active == Bool(true)
      && s.created_at == now
  {
  }

  /** Props that are given (not null or undefined) are stored exactly as given. */
  lemma InitialKeepsGiven(props: CategoryConstructorProps, generatedId: Uuid, now: Timestamp)
    ensures var s := Initial(props, generatedId, now);
      && s.name == props.name
      && (props.category_id.Some? ==> s.category_id == props.category_id.value)
      && (!Nullish(props.description) ==> s.description == props.description)
      && (!Nullish(props.is_active) ==> s.is_active == props.is_active)
      && (props.created_at.Some? ==> s.created_at == props.created_at.value)
  {
  }

  // ---------------------------------------------------------------------
  // Validation
  // ---------------------------------------------------------------------

  /** The messages of the name rules: not empty, a string, at most 255 characters. */
  function NameMessages(name: Value): (r: seq<string>)
    ensures r == [] <==> name.Str? && 0 < |name.s| <= 255
    ensures NotEmptyMessage("name") in r <==> !IsNotEmpty(name)
    ensures StringMessage("name") in r <==> !IsString(name)
    ensures MaxLength255Message("name") in r <==> !MaxLength(name, 255)
  {
    (if IsNotEmpty(name) then [] else [NotEmptyMessage("name")])
    + (if IsString(name) then [] else [StringMessage("name")])
    + (if MaxLength(name, 255) then [] else [MaxLength255Message("name")])
  }

  /** The messages of an optional description, which must otherwise be a string. */
  function DescriptionMessages(description: Value): seq<string> {
    OptionalRule(description, IsString(description), StringMessage("description"))
  }

  /** The messages of an optional `is_active`, which must otherwise be a boolean. */
  function IsActiveMessages(is_active: Value): seq<string> {
    OptionalRule(is_active, IsBoolean(is_active), BooleanMessage("is_active"))
  }

  /** The validator: each field that breaks a rule, mapped to the messages of the rules it breaks. */
  function Validate(s: CategoryState): (errors: FieldErrors)
    ensures errors.Keys <= {"name", "description", "is_active"}
    ensures "name" in errors <==> !(s.name.Str? && 0 < |s.name.s| <= 255)
    ensures "name" in errors ==> errors["name"] == NameMessages(s.name)
    ensures "description" in errors <==> !(Nullish(s.description) || s.description.Str?)
    ensures "description" in errors ==> errors["description"] == [StringMessage("description")]
    ensures "is_active" in errors <==> !(Nullish(s.is_active) || s.is_active.Bool?)
    ensures "is_active" in errors ==> errors["is_active"] == [BooleanMessage("is_active")]
  {
    assert "description" != "is_active" && "name" != "is_active" && "name" != "description";
    var withName := AddField(map[], "name", NameMessages(s.name));
    var withDescription := AddField(withName, "description", DescriptionMessages(s.description));
    AddField(withDescription, "is_active", IsActiveMessages(s.is_active))
  }

  /** A category every rule accepts, stated field by field. */
  predicate WellFormed(s: CategoryState) {
    && s.name.Str? && 0 < |s.name.s| <= 255
    && (s.description.Null? || s.description.Undefined? || s.description.Str?)
    && (s.is_active.Null? || s.is_active.Undefined? || s.is_active.Bool?)
  }

  /** Validation reports nothing exactly for the well-formed categories. */
  lemma ValidateAcceptsWellFormed(s: CategoryState)
    ensures Validate(s) == map[] <==> WellFormed(s)
  {
    var errors := Validate(s);
    if WellFormed(s) {
      assert errors.Keys == {};
    } else if !(s.name.Str? && 0 < |s.name.s| <= 255) {
      assert "name" in errors;
    } else if !(Nullish(s.description) || s.description.Str?) {
      assert "description" in errors;
    } else {
      assert "is_active" in errors;
    }
  }

  /** The name messages for null, "", 5 and a 256-character string. */
  lemma NameMessageCases(long: string)
    requires |long| == 256
    ensures NameMessages(Null) == [NotEmptyMessage("name"), StringMessage("name"), MaxLength255Message("name")]
    ensures NameMessages(Str("")) == [NotEmptyMessage("name")]
    ensures NameMessages(Num(5)) == [StringMessage("name"), MaxLength255Message("name")]
    ensures NameMessages(Str(long)) == [MaxLength255Message("name")]
  {
  }

  /** A description or `is_active` of 5 yields exactly the one message of its rule. */
  lemma WrongTypeCases(generatedId: Uuid, now: Timestamp)
    ensures var s := Initial(CategoryConstructorProps(None, Undefined, Num(5), Undefined, None), generatedId, now);
      Validate(s)["description"] == [StringMessage("description")]
    ensures var s := Initial(CategoryConstructorProps(None, Undefined, Undefined, Num(5), None), generatedId, now);
      Validate(s)["is_active"] == [BooleanMessage("is_active")]
  {
  }

  /** What one run of validation yields: nothing, or the error map it throws. */
  function ValidationOutcome(s: CategoryState): (r: Outcome<FieldErrors>)
    ensures r.Pass? <==> WellFormed(s)
    ensures r.Fail? ==> r.error == Validate(s) && r.error != map[]
  {
    ValidateAcceptsWellFormed(s);
    if Validate(s) == map[] then Pass else Fail(Validate(s))
  }

  // ---------------------------------------------------------------------
  // The entity
  // ---------------------------------------------------------------------

  class Category {
    var category_id: Uuid
    var name: Value
    var description: Value
    var is_active: Value
    var created_at: Timestamp

    /** How many times validation has run on this category. */
    ghost var validations: nat

    /** The current attributes, as a value. */
    function State(): CategoryState
      reads this
    {
      CategoryState(category_id, name, description, is_active, created_at)
    }

    /** Builds a category with the defaults; it does not validate. */
    constructor (props: CategoryConstructorProps, generatedId: Uuid, now: Timestamp)
      ensures State() == Initial(props, generatedId, now)
      ensures validations == 0
    {
      var s := Initial(props, generatedId, now);
      category_id := s.category_id;
      name := s.name;
      description := s.description;
      is_active := s.is_active;
      created_at := s.created_at;
      validations := 0;
    }

    /** `Category.validate(this)`: runs the validator and throws its error map if it is not empty. */
    method RunValidation() returns (outcome: Outcome<FieldErrors>)
      modifies this`validations
      ensures validations == old(validations) + 1
      ensures outcome == ValidationOutcome(State())
    {
      validations := validations + 1;
      var errors := Validate(State());
      outcome := if errors == map[] then Pass else Fail(errors);
    }

    /** `create`: builds a category and validates it exactly once. */
    static method Create(props: CategoryConstructorProps, generatedId: Uuid, now: Timestamp)
      returns (r: Result<Category, FieldErrors>)
      ensures r.Success? <==> WellFormed(Initial(props, generatedId, now))
      ensures r.Failure? ==> r.error == Validate(Initial(props, generatedId, now))
      ensures r.Success? ==> fresh(r.value)
                             && r.value.State() == Initial(props, generatedId, now)
                             && r.value.validations == 1
    {
      var category := new Category(props, generatedId, now);
      var outcome := category.RunValidation();
      match outcome
      case Pass => r := Success(category);
      case Fail(errors) => r := Failure(errors);
    }

    /** `changeName`: sets the name, then validates once more. */
    method ChangeName(newName: Value) returns (outcome: Outcome<FieldErrors>)
      modifies this
      ensures State() == old(State()).(name := newName)
      ensures validations == old(validations) + 1
      ensures outcome == ValidationOutcome(State())
    {
      name := newName;
      outcome := RunValidation();
    }

    /** `changeDescription`: sets the description, then validates once more. */
    method ChangeDescription(newDescription: Value) returns (outcome: Outcome<FieldErrors>)
      modifies this
      ensures State() == old(State()).(description := newDescription)
      ensures validations == old(validations) + 1
      ensures outcome == ValidationOutcome(State())
    {
      description := newDescription;
      outcome := RunValidation();
    }

    /** `activate`: the category is active afterwards, whatever it was before. */
    method Activate()
      modifies this
      ensures State() == old(State()).(is_active := Bool(true))
      ensures validations == old(validations)
    {
      is_active := Bool(true);
    }

    /** `deactivate`: the category is inactive afterwards, whatever it was before. */
    method Deactivate()
      modifies this
      ensures State() == old(State()).(is_active := Bool(false))
      ensures validations == old(validations)
    {
      is_active := Bool(false);
    }
  }

  /**
   * Renaming a well-formed category fails exactly when the new name breaks
   * a name rule, and then the error map holds the name's messages alone.
   */
  lemma RenameOutcome(s: CategoryState, newName: Value)
    requires WellFormed(s)
    ensures ValidationOutcome(s.(name := newName)).Pass? <==> NameMessages(newName) == []
    ensures NameMessages(newName) != [] ==>
              ValidationOutcome(s.(name := newName)).error == map["name" := NameMessages(newName)]
  {
    var errors := Validate(s.(name := newName));
    if NameMessages(newName) != [] {
      assert errors.Keys == {"name"};
    }
  }

  /**
   * Changing the description of a well-formed category fails exactly when
   * the new description is present and not a string, with that one message.
   */
  lemma RedescribeOutcome(s: CategoryState, newDescription: Value)
    requires WellFormed(s)
    ensures ValidationOutcome(s.(description := newDescription)).Pass?
        <==> Nullish(newDescription) || newDescription.Str?
    ensures !(Nullish(newDescription) || newDescription.Str?) ==>
              ValidationOutcome(s.(description := newDescription)).error
                == map["description" := [StringMessage("description")]]
  {
    var errors := Validate(s.(description := newDescription));
    if !(Nullish(newDescription) || newDescription.Str?) {
      assert errors.Keys == {"description"};
    }
  }

  /** Activation and deactivation never break a well-formed category. */
  lemma ToggleKeepsWellFormed(s: CategoryState, active: bool)
    requires WellFormed(s)
    ensures WellFormed(s.(is_active := Bool(active)))
  {
  }
}
