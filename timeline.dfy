/**
 The tracker's in-memory state and the three sidebar commands that change it.
 The state is the group list, the project dictionary (project name to group name,
 in insertion order) and the list of marks ("entries").
 */
module Timeline {
  import opened Lists
  import opened Text
  import opened OrderedDict

  /**
   One mark on a project's swimlane. `group` is the project's group copied in when
   the mark was saved; the chart itself looks the group up again in `projects`.
   */
  datatype Entry = Entry(date: int, project: string, group: string, percent: int, note: string)

  /** The mark that saving the form records, given the project dictionary at that moment. */
  function NewEntry(projects: Dict<string, string>, date: int, project: string, percent: int, note: string): (e: Entry)
    ensures e.date == date && e.project == project && e.percent == percent
    ensures project in Keys(projects) ==> Get(projects, project) == Some(e.group)
    ensures project !in Keys(projects) ==> e.group == ""
    ensures e.note == Strip(note)
  {
    Entry(date, project, GetOr(projects, project, ""), percent, Strip(note))
  }

  class Store {
    var groups: seq<string>
    var projects: Dict<string, string>
    var entries: seq<Entry>

    /** A dictionary never holds a key twice. */
    ghost predicate Valid()
      reads this
    {
      DistinctKeys(projects)
    }

    /** The state a new session starts from. */
    constructor ()
      ensures Valid()
      ensures groups == ["Личное", "Работа"]
      ensures projects == [("ЗОЖ", "Личное"), ("Диссертация", "Работа")]
      ensures entries == []
    {
      groups := ["Личное", "Работа"];
      projects := [("ЗОЖ", "Личное"), ("Диссертация", "Работа")];
      entries := [];
    }

    /**
     "Add group": the name is appended when it is non-empty and not yet listed;
     otherwise nothing changes and the user sees a warning (`added` is false).
     */
    method AddGroup(name: string) returns (added: bool)
      requires Valid()
      modifies this
      ensures Valid()
      ensures added <==> name != "" && name !in old(groups)
      ensures groups == if added then old(groups) + [name] else old(groups)
      ensures NoDuplicates(old(groups)) ==> NoDuplicates(groups)
      ensures projects == old(projects) && entries == old(entries)
    {
      added := name != "" && name !in groups;
      if added {
        if NoDuplicates(groups) {
          AppendFreshKeepsDistinct(groups, name);
        }
        groups := groups + [name];
      }
    }

    /**
     "Add project": for a non-empty name, `projects[name] = group`, replacing the
     group of an existing project of that name; an empty name changes nothing.
     */
    method AddProject(name: string, group: string) returns (added: bool)
      requires Valid()
      modifies this
      ensures Valid()
      ensures added <==> name != ""
      ensures projects == if added then Put(old(projects), name, group) else old(projects)
      ensures added ==> ToMap(projects) == ToMap(old(projects))[name := group]
      ensures Get(projects, name) == if added then Some(group) else Get(old(projects), name)
      ensures forall p :: p != name ==> Get(projects, p) == Get(old(projects), p)
      ensures groups == old(groups) && entries == old(entries)
    {
      added := name != "";
      if added {
        PutKeepsKeysDistinct(projects, name, group);
        PutIsMapUpdate(projects, name, group);
        forall p ensures Get(Put(projects, name, group), p) == if p == name then Some(group) else Get(projects, p) {
          PutGet(projects, name, group, p);
        }
        projects := Put(projects, name, group);
      }
    }

    /**
     "Save mark": appends one entry whose group is the project's current group,
     or "" for a name the dictionary lacks, with the note stripped.
     */
    method AddEntry(date: int, project: string, percent: int, note: string)
      requires Valid()
      modifies this
      ensures Valid()
      ensures entries == old(entries) + [NewEntry(old(projects), date, project, percent, note)]
      ensures groups == old(groups) && projects == old(projects)
    {
      var entry := NewEntry(projects, date, project, percent, note);
      entries := entries + [entry];
    }
  }
}
