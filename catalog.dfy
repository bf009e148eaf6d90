/**
 * The catalog loader: the product payload built for each cardiovascular
 * product (one product option with a value per pack size, one SKU per pack
 * size), the requests sent for it, and the sorting of each product into
 * created, failed or neither. The HTTP server is not modelled: what it
 * answers to each request is an input.
 */
module Catalog {
  import opened Wrappers
  import opened Text

  const CatalogId := 33181
  const PackSizeOptionTemplateId := 62686
  const CardiovascularCategoryId := 62443
  const PomCategoryId := 62462

  /** Costs and prices are copied through unchanged. */
  datatype PackSize = PackSize(size: string, cost: real, price: real)

  datatype ProductData = ProductData(
    code: string, name: string, activeIngredient: string, strength: string,
    shortDescription: string, description: string, packSizes: seq<PackSize>, storage: string)

  datatype OptionValue = OptionValue(key: string, name: string, priority: nat)
  datatype SkuOption = SkuOption(key: string, value: string)
  datatype Sku = Sku(
    cost: real, price: real, externalReferenceCode: string,
    published: bool, purchasable: bool, sku: string, skuOptions: seq<SkuOption>)
  datatype ProductOption = ProductOption(optionId: int, productOptionValues: seq<OptionValue>)
  datatype Payload = Payload(
    catalogId: int, name: string, shortDescription: string, description: string,
    externalReferenceCode: string, productType: string, active: bool, published: bool,
    productOptions: seq<ProductOption>, skus: seq<Sku>)

  // ---------------------------------------------------------------- payload

  /** The key of the i-th (0-based) pack size: `pack-<code lower-cased>-<i+1>`. */
  function OptionKey(code: string, i: nat): string
  {
    "pack-" + ToLower(code) + "-" + NatToString(i + 1)
  }

  /** A SKU code: the product code, `-`, and the size upper-cased with its
      spaces turned into `-`. */
  function SkuCode(code: string, size: string): string
  {
    code + "-" + ToUpper(ReplaceChar(size, ' ', '-'))
  }

  function OptionValueFor(code: string, i: nat, pack: PackSize): OptionValue
  {
    OptionValue(OptionKey(code, i), pack.size, i)
  }

  function SkuFor(code: string, i: nat, pack: PackSize): Sku
  {
    var reference := SkuCode(code, pack.size);
    Sku(pack.cost, pack.price, reference, true, true, reference, [SkuOption(OptionKey(code, i), pack.size)])
  }

  function PayloadOf(data: ProductData, values: seq<OptionValue>, skus: seq<Sku>): Payload
  {
    Payload(CatalogId, data.name, data.shortDescription, data.description,
            "DRUG-STRENGTH-" + data.code, "simple", true, true,
            [ProductOption(PackSizeOptionTemplateId, values)], skus)
  }

  /** The payload `create_product_payload` builds. */
  function ProductPayload(data: ProductData): Payload
  {
    var packs := data.packSizes;
    PayloadOf(data,
      seq(|packs|, i requires 0 <= i < |packs| => OptionValueFor(data.code, i, packs[i])),
      seq(|packs|, i requires 0 <= i < |packs| => SkuFor(data.code, i, packs[i])))
  }

  /** `create_product_payload`: two append loops over the pack sizes. */
  method CreateProductPayload(data: ProductData) returns (payload: Payload)
    ensures payload == ProductPayload(data)
  {
    var packs := data.packSizes;
    var values: seq<OptionValue> := [];
    var i := 0;
    while i < |packs|
      invariant 0 <= i <= |packs| && |values| == i
      invariant forall k :: 0 <= k < i ==> values[k] == OptionValueFor(data.code, k, packs[k])
    {
      values := values + [OptionValue(OptionKey(data.code, i), packs[i].size, i)];
      i := i + 1;
    }
    var skus: seq<Sku> := [];
    i := 0;
    while i < |packs|
      invariant 0 <= i <= |packs| && |skus| == i
      invariant forall k :: 0 <= k < i ==> skus[k] == SkuFor(data.code, k, packs[k])
    {
      var reference := SkuCode(data.code, packs[i].size);
      skus := skus + [Sku(packs[i].cost, packs[i].price, reference, true, true, reference,
                          [SkuOption(OptionKey(data.code, i), packs[i].size)])];
      i := i + 1;
    }
    assert values == seq(|packs|, i requires 0 <= i < |packs| => OptionValueFor(data.code, i, packs[i]));
    assert skus == seq(|packs|, i requires 0 <= i < |packs| => SkuFor(data.code, i, packs[i]));
    payload := PayloadOf(data, values, skus);
  }

  /** The payload's shape: one product option with the fixed option id;
      option values, SKUs and pack sizes index-aligned; the i-th SKU's code
      doubling as its `sku` and its one option naming the i-th key and size. */
  lemma PayloadLayout(data: ProductData)
    ensures var p := ProductPayload(data);
      && p.catalogId == CatalogId && p.productType == "simple"
      && p.externalReferenceCode == "DRUG-STRENGTH-" + data.code
      && |p.productOptions| == 1 && p.productOptions[0].optionId == PackSizeOptionTemplateId
      && var values := p.productOptions[0].productOptionValues;
      && |values| == |p.skus| == |data.packSizes|
      && forall i :: 0 <= i < |values| ==>
           && values[i].key == OptionKey(data.code, i) && values[i].priority == i
           && values[i].name == data.packSizes[i].size
           && p.skus[i].externalReferenceCode == SkuCode(data.code, data.packSizes[i].size)
           && p.skus[i].sku == p.skus[i].externalReferenceCode
           && p.skus[i].skuOptions == [SkuOption(values[i].key, data.packSizes[i].size)]
  {
  }

  /** Different pack positions get different option keys. */
  lemma OptionKeysDistinct(code: string, i: nat, j: nat)
    requires i != j
    ensures OptionKey(code, i) != OptionKey(code, j)
  {
    var prefix := "pack-" + ToLower(code) + "-";
    if OptionKey(code, i) == OptionKey(code, j) {
      assert OptionKey(code, i)[|prefix|..] == NatToString(i + 1);
      assert OptionKey(code, j)[|prefix|..] == NatToString(j + 1);
      NatToStringInjective(i + 1, j + 1);
    }
  }

  /** So the option values of one payload carry distinct keys. */
  lemma PayloadKeysDistinct(data: ProductData, i: nat, j: nat)
    requires i < j < |data.packSizes|
    ensures ProductPayload(data).productOptions[0].productOptionValues[i].key
         != ProductPayload(data).productOptions[0].productOptionValues[j].key
  {
    OptionKeysDistinct(data.code, i, j);
  }

  /** A SKU code has no space, when the product code has none, and begins
      with the product code and `-`. */
  lemma SkuCodeShape(code: string, size: string)
    requires ' ' !in code
    ensures ' ' !in SkuCode(code, size)
    ensures StartsWith(SkuCode(code, size), code + "-")
  {
    var s := SkuCode(code, size);
    var tail := ToUpper(ReplaceChar(size, ' ', '-'));
    assert s == (code + "-") + tail;
    assert s[..|code| + 1] == code + "-";
    forall k | 0 <= k < |s| ensures s[k] != ' ' {
      if k > |code| {
        assert s[k] == tail[k - |code| - 1];
      } else if k < |code| {
        assert s[k] == code[k];
      }
    }
  }

  /** Every key already is lower case, so lower-casing it changes nothing. */
  lemma OptionKeyLowerCase(code: string, i: nat)
    ensures ToLower(OptionKey(code, i)) == OptionKey(code, i)
  {
    var key := OptionKey(code, i);
    var digits := NatToString(i + 1);
    var low := ToLower(code);
    ToLowerIdempotent(code);
    forall k | 0 <= k < |key| ensures LowerChar(key[k]) == key[k] {
      if 5 <= k < 5 + |low| {
        assert key[k] == low[k - 5];
        assert ToLower(low)[k - 5] == LowerChar(low[k - 5]);
      } else if k >= 6 + |low| {
        assert key[k] == digits[k - 6 - |low|];
      }
    }
  }

  // ---------------------------------------------------------------- requests and answers

  datatype Specification = Specification(specificationKey: string, value: string, priority: nat)
  datatype Category = Category(id: int, externalReferenceCode: string, name: string)

  /** The three specifications `add_product_specifications` sends. */
  function Specifications(data: ProductData): (r: seq<Specification>)
    ensures |r| == 3
  {
    [Specification("active-ingredient", data.activeIngredient, 0),
     Specification("strength", data.strength, 1),
     Specification("storage-conditions", data.storage, 2)]
  }

  const Categories: seq<Category> := [
    Category(CardiovascularCategoryId, "cardiovascular", "Cardiovascular"),
    Category(PomCategoryId, "pom", "POM")]

  /** The requests the run sends, in the order sent. */
  datatype Request =
    | PostProduct(payload: Payload)
    | PostSpecification(productId: int, specification: Specification)
    | PatchCategories(productId: int, categories: seq<Category>)

  /** The answer to one request: an HTTP status, or an exception raised
      while sending it. */
  datatype Response = Status(code: int) | Raised

  /** What the three scripts count as success. */
  predicate Succeeded(r: Response)
  {
    r.Status? && (r.code == 200 || r.code == 201)
  }

  /** The answer to the product POST, with its body's `id` when the body
      is an object holding one. */
  datatype CreateReply = CreateReply(response: Response, id: Option<int>)

  /** `create_product`: the created product's id, or nothing when the
      status is not a success, or reading the id from the body raises
      (the exception is caught). */
  function CreateProduct(reply: CreateReply): (r: Option<int>)
    ensures r.Some? <==> Succeeded(reply.response) && reply.id.Some?
    ensures r.Some? ==> r.value == reply.id.value
  {
    if Succeeded(reply.response) then reply.id else None
  }

  function CountSucceeded(rs: seq<Response>): (n: nat)
    ensures n <= |rs|
  {
    if rs == [] then 0
    else CountSucceeded(rs[..|rs| - 1]) + (if Succeeded(rs[|rs| - 1]) then 1 else 0)
  }

  predicate AllSucceeded(rs: seq<Response>)
  {
    forall k :: 0 <= k < |rs| ==> Succeeded(rs[k])
  }

  /** Counting the successes reaches the number of answers exactly when
      every answer is a success. */
  lemma {:induction false} CountSucceededAll(rs: seq<Response>)
    ensures CountSucceeded(rs) == |rs| <==> AllSucceeded(rs)
  {
    if rs != [] {
      var init := rs[..|rs| - 1];
      CountSucceededAll(init);
      if AllSucceeded(rs) {
        assert AllSucceeded(init) by {
          forall k | 0 <= k < |init| ensures Succeeded(init[k]) {
            assert init[k] == rs[k];
          }
        }
      }
      if CountSucceeded(rs) == |rs| {
        forall k | 0 <= k < |rs| ensures Succeeded(rs[k]) {
          if k < |rs| - 1 {
            assert init[k] == rs[k];
          }
        }
      }
    }
  }

  function SpecificationRequests(productId: int, data: ProductData): (r: seq<Request>)
    ensures |r| == 3
  {
    seq(3, k requires 0 <= k < 3 => PostSpecification(productId, Specifications(data)[k]))
  }

  /** `add_product_specifications`: posts the three specifications, each
      answer a given input, and counts the successes; an exception is
      caught and counts as a failure. */
  method AddProductSpecifications(productId: int, data: ProductData, answers: seq<Response>)
    returns (ok: bool, sent: seq<Request>)
    requires |answers| == 3
    ensures ok <==> AllSucceeded(answers)
    ensures sent == SpecificationRequests(productId, data)
  {
    var specifications := Specifications(data);
    var successCount := 0;
    sent := [];
    var k := 0;
    while k < |specifications|
      invariant 0 <= k <= 3 && |sent| == k
      invariant successCount == CountSucceeded(answers[..k])
      invariant forall j :: 0 <= j < k ==> sent[j] == PostSpecification(productId, specifications[j])
    {
      sent := sent + [PostSpecification(productId, specifications[k])];
      assert answers[..k + 1][..k] == answers[..k];
      if answers[k].Status? && (answers[k].code == 200 || answers[k].code == 201) {
        successCount := successCount + 1;
      }
      k := k + 1;
    }
    assert answers[..3] == answers;
    CountSucceededAll(answers);
    ok := successCount == |specifications|;
  }

  /** `add_product_categories`: one PATCH; an exception counts as failure. */
  function AddProductCategories(answer: Response): (ok: bool)
    ensures ok <==> answer.Status? && answer.code in {200, 201}
  {
    Succeeded(answer)
  }

  // ---------------------------------------------------------------- the run

  /** Every answer the server gives while one product is processed. */
  datatype Attempt = Attempt(create: CreateReply, specifications: seq<Response>, categories: Response)

  predicate WellShaped(attempts: seq<Attempt>)
  {
    forall i :: 0 <= i < |attempts| ==> |attempts[i].specifications| == 3
  }

  datatype CreatedProduct = CreatedProduct(id: int, name: string, code: string, skuCount: nat)

  predicate FullySucceeded(a: Attempt)
  {
    CreateProduct(a.create).Some? && AllSucceeded(a.specifications) && AddProductCategories(a.categories)
  }

  function CreatedRecord(data: ProductData, id: int): CreatedProduct
  {
    CreatedProduct(id, data.name, data.code, |data.packSizes|)
  }

  /** What one product adds to `created_products`. */
  function StepCreated(data: ProductData, a: Attempt): seq<CreatedProduct>
  {
    if FullySucceeded(a) then [CreatedRecord(data, CreateProduct(a.create).value)] else []
  }

  /** What one product adds to `failed_products`. */
  function StepFailed(data: ProductData, a: Attempt): seq<string>
  {
    if CreateProduct(a.create).None? then [data.name] else []
  }

  /** The requests sent for one product: the product POST, then, only if
      it created a product, the three specifications and the categories. */
  function StepRequests(data: ProductData, a: Attempt): seq<Request>
  {
    [PostProduct(ProductPayload(data))]
    + match CreateProduct(a.create)
      case None => []
      case Some(id) => SpecificationRequests(id, data) + [PatchCategories(id, Categories)]
  }

  function RunCreated(ps: seq<ProductData>, ats: seq<Attempt>): seq<CreatedProduct>
    requires |ats| == |ps|
  {
    if ps == [] then []
    else RunCreated(ps[..|ps| - 1], ats[..|ps| - 1]) + StepCreated(ps[|ps| - 1], ats[|ps| - 1])
  }

  function RunFailed(ps: seq<ProductData>, ats: seq<Attempt>): seq<string>
    requires |ats| == |ps|
  {
    if ps == [] then []
    else RunFailed(ps[..|ps| - 1], ats[..|ps| - 1]) + StepFailed(ps[|ps| - 1], ats[|ps| - 1])
  }

  function RunRequests(ps: seq<ProductData>, ats: seq<Attempt>): seq<Request>
    requires |ats| == |ps|
  {
    if ps == [] then []
    else RunRequests(ps[..|ps| - 1], ats[..|ps| - 1]) + StepRequests(ps[|ps| - 1], ats[|ps| - 1])
  }

  /** The runs over one more product extend the runs over the earlier ones. */
  lemma RunStep(ps: seq<ProductData>, ats: seq<Attempt>, i: nat)
    requires |ats| == |ps| && i < |ps|
    ensures RunCreated(ps[..i + 1], ats[..i + 1]) == RunCreated(ps[..i], ats[..i]) + StepCreated(ps[i], ats[i])
    ensures RunFailed(ps[..i + 1], ats[..i + 1]) == RunFailed(ps[..i], ats[..i]) + StepFailed(ps[i], ats[i])
    ensures RunRequests(ps[..i + 1], ats[..i + 1]) == RunRequests(ps[..i], ats[..i]) + StepRequests(ps[i], ats[i])
  {
    assert ps[..i + 1][..i] == ps[..i];
    assert ats[..i + 1][..i] == ats[..i];
  }

  /** The body of the loop for one product: build and post its payload; on
      failure record its name; else post its specifications and categories,
      and record it as created only if both of those succeeded. */
  method CreateOne(data: ProductData, attempt: Attempt)
    returns (created: seq<CreatedProduct>, failed: seq<string>, sent: seq<Request>)
    requires |attempt.specifications| == 3
    ensures created == StepCreated(data, attempt)
    ensures failed == StepFailed(data, attempt)
    ensures sent == StepRequests(data, attempt)
  {
    created, failed := [], [];
    var payload := CreateProductPayload(data);
    sent := [PostProduct(payload)];
    var product := CreateProduct(attempt.create);
    if product.None? {
      failed := [data.name];
    } else {
      var specsOk, specRequests := AddProductSpecifications(product.value, data, attempt.specifications);
      sent := sent + specRequests + [PatchCategories(product.value, Categories)];
      var categoriesOk := AddProductCategories(attempt.categories);
      if specsOk && categoriesOk {
        created := [CreatedRecord(data, product.value)];
      }
    }
  }

  /** `create_cardiovascular_products`: each product in turn, a failed one
      recorded by name before going on to the next. */
  method CreateCardiovascularProducts(products: seq<ProductData>, attempts: seq<Attempt>)
    returns (created: seq<CreatedProduct>, failed: seq<string>, sent: seq<Request>)
    requires |attempts| == |products| && WellShaped(attempts)
    ensures created == RunCreated(products, attempts)
    ensures failed == RunFailed(products, attempts)
    ensures sent == RunRequests(products, attempts)
  {
    created, failed, sent := [], [], [];
    var i := 0;
    while i < |products|
      invariant 0 <= i <= |products|
      invariant created == RunCreated(products[..i], attempts[..i])
      invariant failed == RunFailed(products[..i], attempts[..i])
      invariant sent == RunRequests(products[..i], attempts[..i])
    {
      var c, f, r := CreateOne(products[i], attempts[i]);
      RunStep(products, attempts, i);
      created, failed, sent := created + c, failed + f, sent + r;
      i := i + 1;
    }
    assert products[..i] == products;
    assert attempts[..i] == attempts;
  }

  /** No product lands in both lists, so together they are never longer
      than the product list; and each failed create costs one request where
      any other costs five. */
  lemma {:induction false} RunCounts(ps: seq<ProductData>, ats: seq<Attempt>)
    requires |ats| == |ps|
    ensures |RunCreated(ps, ats)| + |RunFailed(ps, ats)| <= |ps|
    ensures |RunRequests(ps, ats)| == |ps| + 4 * (|ps| - |RunFailed(ps, ats)|)
  {
    if ps != [] {
      RunCounts(ps[..|ps| - 1], ats[..|ps| - 1]);
    }
  }

  /** A product is recorded as created exactly when its create, its
      specifications and its categories all succeeded, with its own id,
      name, code and number of SKUs. */
  lemma {:induction false} RunCreatedIff(ps: seq<ProductData>, ats: seq<Attempt>, c: CreatedProduct)
    requires |ats| == |ps|
    ensures c in RunCreated(ps, ats) <==> exists i :: 0 <= i < |ps| && Records(ps[i], ats[i], c)
  {
    if ps != [] {
      var n := |ps| - 1;
      var ps', ats' := ps[..n], ats[..n];
      var front, step := RunCreated(ps', ats'), StepCreated(ps[n], ats[n]);
      assert RunCreated(ps, ats) == front + step;
      assert c in step <==> Records(ps[n], ats[n], c);
      RunCreatedIff(ps', ats', c);
      if c in front {
        var i :| 0 <= i < n && Records(ps'[i], ats'[i], c);
        assert ps'[i] == ps[i] && ats'[i] == ats[i];
      }
      if exists i :: 0 <= i < |ps| && Records(ps[i], ats[i], c) {
        var i :| 0 <= i < |ps| && Records(ps[i], ats[i], c);
        if i < n {
          assert ps'[i] == ps[i] && ats'[i] == ats[i];
        }
      }
    }
  }

  /** Product `data` with answers `a` is recorded as `c`: all three steps
      succeeded and `c` carries its id, name, code and number of SKUs. */
  predicate Records(data: ProductData, a: Attempt, c: CreatedProduct)
  {
    FullySucceeded(a) && c == CreatedRecord(data, CreateProduct(a.create).value)
  }

  /** A name is recorded as failed exactly when the create request of some
      product of that name failed. A product whose create succeeded but whose
      specifications or categories failed is in neither list. */
  lemma {:induction false} RunFailedIff(ps: seq<ProductData>, ats: seq<Attempt>, name: string)
    requires |ats| == |ps|
    ensures name in RunFailed(ps, ats) <==>
      exists i :: 0 <= i < |ps| && CreateProduct(ats[i].create).None? && ps[i].name == name
  {
    if ps != [] {
      var n := |ps| - 1;
      var ps', ats' := ps[..n], ats[..n];
      var front, step := RunFailed(ps', ats'), StepFailed(ps[n], ats[n]);
      assert RunFailed(ps, ats) == front + step;
      RunFailedIff(ps', ats', name);
      if name in front {
        var i :| 0 <= i < n && CreateProduct(ats'[i].create).None? && ps'[i].name == name;
        assert ps'[i] == ps[i] && ats'[i] == ats[i];
      }
      if exists i :: 0 <= i < |ps| && CreateProduct(ats[i].create).None? && ps[i].name == name {
        var i :| 0 <= i < |ps| && CreateProduct(ats[i].create).None? && ps[i].name == name;
        if i < n {
          assert ps'[i] == ps[i] && ats'[i] == ats[i];
        }
      }
    }
  }

  /** Specifications and categories are only ever sent for the id of a
      product whose create succeeded. */
  lemma {:induction false} FollowUpsNeedCreate(ps: seq<ProductData>, ats: seq<Attempt>, r: Request)
    requires |ats| == |ps| && r in RunRequests(ps, ats) && !r.PostProduct?
    ensures exists i :: 0 <= i < |ps| && CreateProduct(ats[i].create) == Some(r.productId)
  {
    var n := |ps| - 1;
    var ps', ats' := ps[..n], ats[..n];
    if r in RunRequests(ps', ats') {
      FollowUpsNeedCreate(ps', ats', r);
      var i :| 0 <= i < n && CreateProduct(ats'[i].create) == Some(r.productId);
      assert ats'[i] == ats[i];
    } else {
      assert CreateProduct(ats[n].create) == Some(r.productId);
    }
  }
}
