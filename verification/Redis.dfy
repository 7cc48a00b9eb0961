/** The Redis server: one flat key space of strings and lists, with the commands the store uses. */
module Redis {
  import opened Options

  datatype Value = Str(text: string) | List(items: seq<string>)

  class Redis {
    var db: map<string, Value>

    constructor ()
      ensures db == map[]
    {
      db := map[];
    }

    /** DEL removes a key of either kind; a missing key is ignored. */
    method Del(key: string)
      modifies this
      ensures db == old(db) - {key}
    {
      db := db - {key};
    }

    /** GET replies with an error to a list; no caller may run into it. */
    method Get(key: string) returns (value: Option<string>)
      requires key in db ==> db[key].Str?
      ensures value == if key in db then Some(db[key].text) else None
    {
      if key in db {
        return Some(db[key].text);
      }
      return None;
    }

    /** SET replaces whatever the key held. */
    method Set(key: string, value: string)
      modifies this
      ensures db == old(db)[key := Str(value)]
    {
      db := db[key := Str(value)];
    }

    /** LRANGE key 0 -1: the whole list, empty for a missing key; an error for a string. */
    method LRange(key: string) returns (items: seq<string>)
      requires key in db ==> db[key].List?
      ensures items == if key in db then db[key].items else []
    {
      if key in db {
        return db[key].items;
      }
      return [];
    }

    /** RPUSH appends, creating the list where there is none; an error for a string or without items. */
    method RPush(key: string, items: seq<string>)
      requires key in db ==> db[key].List?
      requires items != []
      modifies this
      ensures db == old(db)[key := List((if key in old(db) then old(db)[key].items else []) + items)]
    {
      db := db[key := List((if key in db then db[key].items else []) + items)];
    }
  }
}
