/**
 * The custom data store that user-interface widgets mix in: a dictionary
 * of named values attached to a widget.
 */
module Widget {
  import opened Values

  class CustomDataWidget {
    /** `_widget_data`. */
    var store: map<string, Value>

    /**
     * `CustomDataWidget(data)`: a dict's entries are stored one by one under
     * their own names; any other truthy value is stored under "data"; a
     * falsy value leaves the store empty.
     */
    constructor (data: Value)
      ensures data.Dict? ==> store == data.entries
      ensures !data.Dict? && Truthy(data) ==> store == map["data" := data]
      ensures !data.Dict? && !Truthy(data) ==> store == map[]
      ensures forall name :: HasData(name) <==>
        (if data.Dict? then name in data.entries else Truthy(data) && name == "data")
    {
      store := map[];
      new;
      if data.Dict? {
        var pending := data.entries.Keys;
        while pending != {}
          invariant pending <= data.entries.Keys
          invariant store == map name | name in data.entries.Keys - pending :: data.entries[name]
          decreases |pending|
        {
          var name :| name in pending;
          StoreData(name, data.entries[name]);
          pending := pending - {name};
        }
        assert data.entries.Keys - pending == data.entries.Keys;
      } else if Truthy(data) {
        StoreData("data", data);
      }
    }

    /** `store_data(name, value)`: sets or replaces the value under name; every other name keeps its value. */
    method StoreData(name: string, value: Value)
      modifies this
      ensures store == old(store)[name := value]
      ensures HasData(name) && forall default :: GetData(name, default) == value
      ensures forall other :: other != name ==> HasData(other) == old(HasData(other))
    {
      store := store[name := value];
    }

    /** `get_data(name, default)`: the stored value, or the caller's default when nothing is stored under name. */
    function GetData(name: string, default: Value): (r: Value)
      reads this
      ensures name in store ==> r == store[name]
      ensures name !in store ==> r == default
    {
      if name in store then store[name] else default
    }

    /** `has_data(name)`: exactly when `get_data(name, default)` does not depend on the default. */
    predicate HasData(name: string)
      reads this
      ensures HasData(name) <==> forall d1, d2 :: GetData(name, d1) == GetData(name, d2)
    {
      if name in store then true
      else assert GetData(name, NoneValue) != GetData(name, Bool(false)); false
    }
  }
}
