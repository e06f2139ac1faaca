/** The `Product` model of Langchian/Parser.py: three string fields, of which
    only `description` has a validator, requiring at least ten characters. */
module ProductParser {
  import opened PyBase

  const MinDescriptionLength: nat := 10
  const DescriptionTooShort: string := "产品简介长度必须大于等于10"

  datatype Product = Product(name: string, category: string, description: string)

  /** `Product.validate_description(value)`. */
  function ValidateDescription(value: string): (r: Result<string>)
    ensures r.Ok? <==> |value| >= MinDescriptionLength
    ensures r.Ok? ==> r.value == value
    ensures r.Err? ==> r.error == ValueError(DescriptionTooShort)
  {
    if |value| < MinDescriptionLength then Err(ValueError(DescriptionTooShort)) else Ok(value)
  }

  /** Building a `Product` from its fields: the description's validator runs,
      the other two fields are taken as they are. */
  function MakeProduct(name: string, category: string, description: string): (r: Result<Product>)
    ensures r.Ok? ==> r.value.name == name && r.value.category == category
  {
    var d := ValidateDescription(description);
    if d.Err? then Err(d.error) else Ok(Product(name, category, d.value))
  }

  /** A product is built exactly when the description has at least ten
      characters, whatever the name and category are; it then holds the
      three fields unchanged. */
  lemma MakeProductAccepts(name: string, category: string, description: string)
    ensures MakeProduct(name, category, description).Ok? <==> |description| >= MinDescriptionLength
    ensures MakeProduct(name, category, description).Ok? ==>
              MakeProduct(name, category, description).value == Product(name, category, description)
    ensures MakeProduct(name, category, description).Err? ==>
              MakeProduct(name, category, description).error == ValueError(DescriptionTooShort)
  {
  }

  /** Ten characters is the boundary: nine are refused, ten accepted. */
  lemma DescriptionBoundary()
    ensures ValidateDescription("小米新款旗舰手机发布").Ok?
    ensures ValidateDescription("小米新款旗舰手机发").Err?
    ensures MakeProduct("", "", "小米新款旗舰手机发布").Ok?
  {
    assert |"小米新款旗舰手机发布"| == 10;
    assert |"小米新款旗舰手机发"| == 9;
  }
}
