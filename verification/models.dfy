/** What the database schema and the Eloquent model class report about one
    model: the input record that replaces the schema builder, the model's
    attribute accessors and relation reflection. */
module Models {

  /** The result of `getAppends()`: the model has no such method, it returns an
      array of attribute names, or it returns something else. */
  datatype Appends = NoAppendsMethod | AppendList(names: seq<string>) | AppendsNotArray

  /** One entry of `get_all_model_relations`: the accessor method, the relation
      object's class (such as `Illuminate\Database\Eloquent\Relations\HasMany`)
      and the related model's class. */
  datatype Relation = Relation(accessor: string, relationClass: string, target: string)

  datatype ModelInfo = ModelInfo(
    columns: seq<string>,          // `Schema::getColumnListing($model->getTable())`
    casts: map<string, string>,    // `getCasts()`
    dates: seq<string>,            // `getDates()`
    hidden: seq<string>,           // `getHidden()`
    appends: Appends,
    relations: seq<Relation>)
}
