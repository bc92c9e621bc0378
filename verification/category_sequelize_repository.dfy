/**
 * The decisions the Sequelize-backed category repository makes before
 * handing work to the ORM: the query descriptor `search` builds (window,
 * name filter, allow-listed order with a per-dialect override, fallback
 * order), and the not-found rules of `update` and `delete` over a table of
 * rows keyed by category id. What the ORM does with a descriptor is a
 * parameter here.
 */
module CategorySequelize {
  import opened Wrappers
  import opened SearchTypes
  import InMemorySearchable

  /** The columns a caller may sort by. */
  const SortableFields: seq<string> := ["name", "created_at"]

  /** The entity name carried by a not-found error. */
  const EntityName: string := "Category"

  /** One stored category row. */
  datatype CategoryRow = CategoryRow(
    category_id: string,
    name: string,
    description: Option<string>,
    is_active: bool,
    created_at: int)

  /** An `ORDER BY`: plain `[column, direction]` pairs, or the mysql `binary <column> <direction>` literal. */
  datatype Order =
    | Columns(columns: seq<(string, Option<SortDirection>)>)
    | BinaryCollation(column: string, dir: Option<SortDirection>)

  /** A `WHERE`: the name matched with `LIKE` against a pattern. */
  datatype Where = NameLike(pattern: string)

  /** What `search` hands to `findAndCountAll`. */
  datatype FindOptions = FindOptions(where: Option<Where>, order: Order, offset: nat, limit: nat)

  /** The errors the repository throws. */
  datatype RepositoryError =
    | NotFound(id: string, entity: string)
    | NotImplemented

  /** The columns an order mentions. */
  function OrderColumns(order: Order): set<string> {
    match order
    case Columns(columns) => set i | 0 <= i < |columns| :: columns[i].0
    case BinaryCollation(column, _) => {column}
  }

  /** The order used when the request names no sortable field. */
  const DefaultOrder: Order := Columns([("created_at", Some(Desc))])

  /** `formatSort`: the dialect's override for the column if it has one, else the plain pair. */
  function FormatSort(dialect: string, sort: string, sort_dir: Option<SortDirection>): (order: Order)
    ensures order.BinaryCollation? <==> dialect == "mysql" && sort == "name"
    ensures order.BinaryCollation? ==> order == BinaryCollation(sort, sort_dir)
    ensures order.Columns? ==> order.columns == [(sort, sort_dir)]
    ensures OrderColumns(order) == {sort}
  {
    if dialect == "mysql" && sort == "name" then BinaryCollation(sort, sort_dir)
    else
      var order := Columns([(sort, sort_dir)]);
      assert order.columns[0].0 == sort;
      order
  }

  /** A filter is applied only when it is a non-empty string. */
  predicate FilterApplies(filter: Option<string>) {
    filter.Some? && filter.value != ""
  }

  /** The query descriptor `search` builds. */
  function SearchOptions(params: SearchParams<string>, dialect: string): (q: FindOptions)
    requires ValidPaging(params)
    ensures q.offset == InMemorySearchable.PageStart(params.page, params.per_page)
    ensures q.limit == params.per_page
    ensures q.where.Some? <==> FilterApplies(params.filter)
    ensures q.where.Some? ==> q.where.value == NameLike("%" + params.filter.value + "%")
    ensures forall c :: c in OrderColumns(q.order) ==> c in SortableFields
    ensures InMemorySearchable.SortApplies(SortableFields, params.sort) ==>
              q.order == FormatSort(dialect, params.sort.value, params.sort_dir)
    ensures !InMemorySearchable.SortApplies(SortableFields, params.sort) ==> q.order == DefaultOrder
  {
    var where := if FilterApplies(params.filter) then Some(NameLike("%" + params.filter.value + "%")) else None;
    var order :=
      if InMemorySearchable.SortApplies(SortableFields, params.sort)
      then FormatSort(dialect, params.sort.value, params.sort_dir)
      else DefaultOrder;
    assert OrderColumns(DefaultOrder) == {"created_at"} by {
      assert DefaultOrder.columns[0].0 == "created_at";
    }
    FindOptions(where, order, InMemorySearchable.PageStart(params.page, params.per_page), params.per_page)
  }

  /** A requested sort outside the allow-list never reaches the order, whatever the dialect. */
  lemma UnsortableFieldFallsBack(params: SearchParams<string>, dialect: string)
    requires ValidPaging(params)
    requires params.sort.Some? && params.sort.value !in SortableFields
    ensures SearchOptions(params, dialect).order == DefaultOrder
    ensures params.sort.value !in OrderColumns(SearchOptions(params, dialect).order)
  {
  }

  /** The rows `OFFSET offset LIMIT limit` keeps of an ordered result. */
  function Window(rows: seq<CategoryRow>, offset: nat, limit: nat): (r: seq<CategoryRow>)
    ensures |r| == InMemorySearchable.Min(|rows|, offset + limit) - InMemorySearchable.Min(|rows|, offset)
    ensures forall i :: 0 <= i < |r| ==> r[i] == rows[offset + i]
  {
    InMemorySearchable.Slice(rows, offset, offset + limit)
  }

  /** The descriptor's window selects exactly the page the in-memory repository would return. */
  lemma WindowIsPage(rows: seq<CategoryRow>, params: SearchParams<string>, dialect: string)
    requires ValidPaging(params)
    ensures var q := SearchOptions(params, dialect);
      Window(rows, q.offset, q.limit) == InMemorySearchable.ApplyPaginate(rows, params.page, params.per_page)
  {
  }

  /**
   * `search`: runs the descriptor through `findAndCountAll` (rows of the
   * window and the count of all matching rows) and wraps the answer.
   */
  function Search(params: SearchParams<string>, dialect: string,
                  findAndCountAll: FindOptions -> (seq<CategoryRow>, nat)): (r: SearchResult<CategoryRow>)
    requires ValidPaging(params)
    ensures r.items == findAndCountAll(SearchOptions(params, dialect)).0
    ensures r.total == findAndCountAll(SearchOptions(params, dialect)).1
    ensures r.current_page == params.page && r.per_page == params.per_page
  {
    var (rows, count) := findAndCountAll(SearchOptions(params, dialect));
    SearchResult(rows, count, params.page, params.per_page)
  }

  class CategorySequelizeRepository {
    /** The category table, by primary key. */
    var table: map<string, CategoryRow>

    /** Every row is stored under its own id. */
    ghost predicate Valid()
      reads this
    {
      forall id :: id in table ==> table[id].category_id == id
    }

    constructor (rows: map<string, CategoryRow>)
      requires forall id :: id in rows ==> rows[id].category_id == id
      ensures Valid()
      ensures table == rows
    {
      table := rows;
    }

    /** `findByPk`: the row stored under a key, if any. */
    function FindByPk(id: string): (r: Option<CategoryRow>)
      reads this
      requires Valid()
      ensures r.Some? <==> id in table
      ensures r.Some? ==> r.value == table[id] && r.value.category_id == id
    {
      if id in table then Some(table[id]) else None
    }

    /** `destroy` where `category_id` equals `id`: removes the matching rows and counts them. */
    method Destroy(id: string) returns (affectedRows: nat)
      requires Valid()
      modifies this
      ensures Valid()
      ensures table == old(table) - {id}
      ensures affectedRows == (if id in old(table) then 1 else 0)
    {
      var matching := set k | k in table && table[k].category_id == id;
      assert matching == (if id in table then {id} else {});
      affectedRows := |matching|;
      table := table - matching;
    }

    /** `update`: not found unless a row has the entity's id; otherwise that row is replaced. */
    method Update(entity: CategoryRow) returns (r: Outcome<RepositoryError>)
      requires Valid()
      modifies this
      ensures Valid()
      ensures entity.category_id !in old(table) ==>
                r == Fail(NotFound(entity.category_id, EntityName)) && table == old(table)
      ensures entity.category_id in old(table) ==>
                r == Pass && table == old(table)[entity.category_id := entity]
    {
      var id := entity.category_id;
      var model := FindByPk(id);
      if model.None? {
        return Fail(NotFound(id, EntityName));
      }
      table := table[id := entity];
      r := Pass;
    }

    /** `delete`: removes the row with the id; not found unless exactly one row went. */
    method Delete(category_id: string) returns (r: Outcome<RepositoryError>)
      requires Valid()
      modifies this
      ensures Valid()
      ensures table == old(table) - {category_id}
      ensures r.Pass? <==> category_id in old(table)
      ensures r.Fail? ==> r.error == NotFound(category_id, EntityName)
    {
      var affectedRows := Destroy(category_id);
      if affectedRows != 1 {
        return Fail(NotFound(category_id, EntityName));
      }
      r := Pass;
    }

    /** `findByIds`: not implemented; every call fails. */
    method FindByIds(ids: seq<string>) returns (r: Result<seq<CategoryRow>, RepositoryError>)
      ensures r == Failure(NotImplemented)
    {
      r := Failure(NotImplemented);
    }

    /** `existsById`: not implemented; every call fails. */
    method ExistsById(ids: seq<string>) returns (r: Result<(seq<string>, seq<string>), RepositoryError>)
      ensures r == Failure(NotImplemented)
    {
      r := Failure(NotImplemented);
    }
  }
}
