/**
 * The input of the create-category use case: a plain object whose
 * constructor copies the props it is given, and whose field rules
 * (`IsNotEmpty`/`IsString` on the name, `IsOptional` with `IsString` on the
 * description, `IsOptional` with `IsBoolean` on `is_active`) decide whether
 * it is accepted.
 */
module CreateCategory {
  import opened Wrappers
  import opened ClassValidator
  import CategoryEntity

  /** The constructor's props; a prop that is not supplied is `Undefined`. */
  datatype CreateCategoryInputProps = CreateCategoryInputProps(
    name: Value,
    description: Value,
    is_active: Value)

  /** Every field unset. */
  const Unset := CreateCategoryInputProps(Undefined, Undefined, Undefined)

  class CreateCategoryInput {
    var name: Value
    var description: Value
    var is_active: Value

    /** The current field values, as a value. */
    function Fields(): CreateCategoryInputProps
      reads this
    {
      CreateCategoryInputProps(name, description, is_active)
    }

    /**
     * `None` stands for falsy props (`null` or `undefined`): every field
     * stays unset. Otherwise every prop is copied into the same-named field.
     */
    constructor (props: Option<CreateCategoryInputProps>)
      ensures props.None? ==> Fields() == Unset
      ensures props.Some? ==> Fields() == props.value
    {
      name := Undefined;
      description := Undefined;
      is_active := Undefined;
      new;
      if props.None? {
        return;
      }
      name := props.value.name;
      description := props.value.description;
      is_active := props.value.is_active;
    }
  }

  /**
   * The messages of the name rules. Stacked decorators apply bottom-up, so
   * `IsString` is registered before `IsNotEmpty` and its message comes first.
   */
  function NameMessages(name: Value): (r: seq<string>)
    ensures r == [] <==> name.Str? && name.s != ""
    ensures NotEmptyMessage("name") in r <==> !IsNotEmpty(name)
    ensures StringMessage("name") in r <==> !IsString(name)
  {
    (if IsString(name) then [] else [StringMessage("name")])
    + (if IsNotEmpty(name) then [] else [NotEmptyMessage("name")])
  }

  /** The field rules of the input: each field that breaks a rule, mapped to its messages. */
  function InputErrors(input: CreateCategoryInputProps): (errors: FieldErrors)
    ensures errors.Keys <= {"name", "description", "is_active"}
    ensures "name" in errors <==> !(input.name.Str? && input.name.s != "")
    ensures "name" in errors ==> errors["name"] == NameMessages(input.name)
    ensures "description" in errors <==> !(Nullish(input.description) || input.description.Str?)
    ensures "description" in errors ==> errors["description"] == [StringMessage("description")]
    ensures "is_active" in errors <==> !(Nullish(input.is_active) || input.is_active.Bool?)
    ensures "is_active" in errors ==> errors["is_active"] == [BooleanMessage("is_active")]
  {
    assert "description" != "is_active" && "name" != "is_active" && "name" != "description";
    var withName := AddField(map[], "name", NameMessages(input.name));
    var withDescription := AddField(withName, "description",
      OptionalRule(input.description, IsString(input.description), StringMessage("description")));
    AddField(withDescription, "is_active",
      OptionalRule(input.is_active, IsBoolean(input.is_active), BooleanMessage("is_active")))
  }

  /** An acceptable input, stated field by field. */
  predicate ValidInput(input: CreateCategoryInputProps) {
    && input.name.Str? && input.name.s != ""
    && (input.description.Null? || input.description.Undefined? || input.description.Str?)
    && (input.is_active.Undefined? || input.is_active.Null? || input.is_active.Bool?)
  }

  /** The rules report nothing exactly for the acceptable inputs. */
  lemma InputErrorsEmptyIffValid(input: CreateCategoryInputProps)
    ensures InputErrors(input) == map[] <==> ValidInput(input)
  {
    var errors := InputErrors(input);
    if ValidInput(input) {
      assert errors.Keys == {};
    } else if !(input.name.Str? && input.name.s != "") {
      assert "name" in errors;
    } else if !(Nullish(input.description) || input.description.Str?) {
      assert "description" in errors;
    } else {
      assert "is_active" in errors;
    }
  }

  /** A missing, null or empty name is refused; a present non-string one is refused as not a string. */
  lemma NameIsRequired(input: CreateCategoryInputProps)
    ensures input.name in {Undefined, Null, Str("")} ==>
              "name" in InputErrors(input) && NotEmptyMessage("name") in InputErrors(input)["name"]
    ensures !input.name.Str? ==>
              "name" in InputErrors(input) && StringMessage("name") in InputErrors(input)["name"]
  {
  }

  /** An input built from falsy props is refused, on its name alone. */
  lemma UnsetInputRefused()
    ensures InputErrors(Unset).Keys == {"name"}
  {
  }

  /**
   * The input rules are looser than the entity's: an accepted input whose
   * name also fits in 255 characters builds a well-formed category.
   */
  lemma AcceptedInputMakesWellFormedCategory(input: CreateCategoryInputProps, generatedId: CategoryEntity.Uuid, now: CategoryEntity.Timestamp)
    requires InputErrors(input) == map[]
    requires |input.name.s| <= 255
    ensures var props := CategoryEntity.CategoryConstructorProps(None, input.name, input.description, input.is_active, None);
      CategoryEntity.WellFormed(CategoryEntity.Initial(props, generatedId, now))
  {
    InputErrorsEmptyIffValid(input);
  }
}
