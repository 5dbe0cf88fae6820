/** backend/Controllers/CategoriesController.cs: queries and administration of
    the Categories table. */
module Categories {
  import opened Wrappers
  import opened Models
  import opened Data
  import opened Controllers

  /** `string.IsNullOrEmpty` on the optional `type` query parameter. */
  predicate IsNullOrEmpty(s: Option<string>)
  {
    s == None || s == Some("")
  }

  /** `GetCategories(type)`: the whole table when no type is given, otherwise
      exactly the categories whose `Type` equals it. */
  function GetCategories(categories: map<int, Category>, kind: Option<string>): (r: map<int, Category>)
    ensures forall k :: k in r ==> k in categories && r[k] == categories[k]
    ensures IsNullOrEmpty(kind) ==> r.Keys == categories.Keys
    ensures !IsNullOrEmpty(kind) ==>
      forall k :: k in categories ==> (k in r <==> categories[k].Type == kind.value)
  {
    if IsNullOrEmpty(kind) then categories
    else map k | k in categories && categories[k].Type == kind.value :: categories[k]
  }

  /** Filtering by a type twice is filtering once. */
  lemma GetCategoriesIdempotent(categories: map<int, Category>, kind: Option<string>)
    ensures GetCategories(GetCategories(categories, kind), kind) == GetCategories(categories, kind)
  {
  }

  /** `GetCategory(id)`: the row, or NotFound. */
  function GetCategory(categories: map<int, Category>, id: int): (res: ActionResult<Category>)
    ensures res.NotFound? <==> id !in categories
    ensures id in categories ==> res == Ok(categories[id])
  {
    if id !in categories then NotFound else Ok(categories[id])
  }

  /** `CategoriesController` with the administering actions. `callerRole` is the
      role claim of the caller's token; `[Authorize(Roles = "Admin")]` admits
      only "Admin". */
  class CategoriesController {
    const context: MediaPortalContext

    constructor (context: MediaPortalContext)
      ensures this.context == context
    {
      this.context := context;
    }

    /** `CreateCategory`: stores the category under the next generated key. */
    method CreateCategory(category: Category, callerRole: string) returns (res: ActionResult<Category>)
      requires callerRole == AdminRole
      requires context.Valid()
      modifies context
      ensures context.Valid()
      ensures res == Created(old(context.NextCategoryId), category.(Id := old(context.NextCategoryId)))
      ensures res.id !in old(context.Categories)
      ensures context.State() == old(context.State()).(
        Categories := old(context.Categories)[res.id := res.body],
        NextCategoryId := old(context.NextCategoryId) + 1)
    {
      var row := category.(Id := context.NextCategoryId);
      context.Categories := context.Categories[row.Id := row];
      context.NextCategoryId := context.NextCategoryId + 1;
      res := Created(row.Id, row);
    }

    /** `UpdateCategory`: a body whose id differs from the route id is refused;
        saving a row that does not exist fails and is reported as NotFound;
        otherwise the whole row is replaced by the body. */
    method UpdateCategory(id: int, category: Category, callerRole: string) returns (res: ActionResult<()>)
      requires callerRole == AdminRole
      requires context.Valid()
      modifies context
      ensures context.Valid()
      ensures res.BadRequest? <==> id != category.Id
      ensures res.NotFound? <==> id == category.Id && id !in old(context.Categories)
      ensures res.NoContent? <==> id == category.Id && id in old(context.Categories)
      ensures res.NoContent? ==> context.State() == old(context.State()).(Categories := old(context.Categories)[id := category])
      ensures !res.NoContent? ==> context.State() == old(context.State())
    {
      if id != category.Id {
        return BadRequest("");
      }
      if id !in context.Categories {
        return NotFound;
      }
      context.Categories := context.Categories[id := category];
      res := NoContent;
    }

    /** `DeleteCategory`. */
    method DeleteCategory(id: int, callerRole: string) returns (res: ActionResult<()>)
      requires callerRole == AdminRole
      requires context.Valid()
      modifies context
      ensures context.Valid()
      ensures res.NoContent? <==> id in old(context.Categories)
      ensures res.NotFound? <==> id !in old(context.Categories)
      ensures context.State() == old(context.State()).(Categories := old(context.Categories) - {id})
    {
      if id !in context.Categories {
        assert context.Categories - {id} == context.Categories;
        return NotFound;
      }
      context.Categories := context.Categories - {id};
      res := NoContent;
    }
  }
}
