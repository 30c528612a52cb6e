/** The state engine of the `App` component: its state hooks become the fields
    of a class, every handler a method, and the key-value store a map from key
    to the task list stored under it. */
module TodoApp {
  import opened Text
  import opened Tasks

  /** The storage key of the active list. */
  const TodosKey: string := "@todos"
  /** The storage key of the completed list. */
  const CompletedKey: string := "@completedItems"

  /** A store whose active list holds only active tasks and whose completed
      list holds only completed ones. */
  predicate StoreLifecycle(store: map<string, seq<Task>>)
  {
    && (TodosKey in store ==> AllActive(store[TodosKey]))
    && (CompletedKey in store ==> AllCompleted(store[CompletedKey]))
  }

  class App {
    var textInput: string
    var searchText: string
    var todos: seq<Task>
    var completedItems: seq<Task>
    var showDeleteAllModal: bool
    var noTodosMessage: bool
    /** What the key-value store holds; a missing key reads as `null`. */
    var store: map<string, seq<Task>>

    /** The initial values of the state hooks, over whatever the store
        already holds from earlier runs. */
    constructor (persisted: map<string, seq<Task>>)
      ensures textInput == "" && searchText == ""
      ensures todos == [] && completedItems == []
      ensures !showDeleteAllModal && noTodosMessage
      ensures store == persisted
      ensures StoreLifecycle(persisted) ==> Lifecycle()
    {
      textInput, searchText := "", "";
      todos, completedItems := [], [];
      showDeleteAllModal, noTodosMessage := false, true;
      store := persisted;
    }

    /** The lifecycle rule of a task: active tasks carry no completion time
        and completed tasks carry one, in memory and in the store alike. */
    predicate Lifecycle()
      reads this
    {
      AllActive(todos) && AllCompleted(completedItems) && StoreLifecycle(store)
    }

    /** The rows of the active view: the active tasks whose lowered title
        includes the lowered search text, in list order. */
    function ShownTodos(): (r: seq<Task>)
      reads this
      ensures forall t :: multiset(r)[t] == if Contains(Lower(t.title), Lower(searchText)) then multiset(todos)[t] else 0
      ensures forall t :: t in r <==> t in todos && Contains(Lower(t.title), Lower(searchText))
      ensures IsSubsequence(r, todos)
      ensures searchText == "" ==> r == todos
    {
      SearchSpec(todos, searchText);
      SearchEmptyQuery(todos);
      Search(todos, searchText)
    }

    /** The rows of the completed view: the completed tasks whose lowered
        title includes the lowered search text, in list order. */
    function ShownCompletedItems(): (r: seq<Task>)
      reads this
      ensures forall t :: multiset(r)[t] == if Contains(Lower(t.title), Lower(searchText)) then multiset(completedItems)[t] else 0
      ensures forall t :: t in r <==> t in completedItems && Contains(Lower(t.title), Lower(searchText))
      ensures IsSubsequence(r, completedItems)
      ensures searchText == "" ==> r == completedItems
    {
      SearchSpec(completedItems, searchText);
      SearchEmptyQuery(completedItems);
      Search(completedItems, searchText)
    }

    // -------------------------------------------------------------------------
    // Store reads and writes
    // -------------------------------------------------------------------------

    /** Mount effect: adopt the stored active list if there is one and show
        the "nothing to do" message only when there is none. */
    method LoadTodos()
      modifies this`todos, this`noTodosMessage
      ensures TodosKey in store ==> todos == store[TodosKey] && !noTodosMessage
      ensures TodosKey !in store ==> todos == old(todos) && noTodosMessage
      ensures old(Lifecycle()) ==> Lifecycle()
    {
      if TodosKey in store {
        todos := store[TodosKey];
        noTodosMessage := false;
      } else {
        noTodosMessage := true;
      }
    }

    /** Run when the completed view is opened: adopt the stored completed
        list if there is one, otherwise keep the list in memory. */
    method LoadCompletedItems()
      modifies this`completedItems
      ensures CompletedKey in store ==> completedItems == store[CompletedKey]
      ensures CompletedKey !in store ==> completedItems == old(completedItems)
      ensures old(Lifecycle()) ==> Lifecycle()
    {
      if CompletedKey in store {
        completedItems := store[CompletedKey];
      }
    }

    /** Overwrite the stored active list; every other key is kept. */
    method SaveTodos(updated: seq<Task>)
      modifies this`store
      ensures store == old(store)[TodosKey := updated]
    {
      store := store[TodosKey := updated];
    }

    /** Overwrite the stored completed list; every other key is kept. */
    method SaveCompletedItems(updated: seq<Task>)
      modifies this`store
      ensures store == old(store)[CompletedKey := updated]
    {
      store := store[CompletedKey := updated];
    }

    // -------------------------------------------------------------------------
    // Text inputs
    // -------------------------------------------------------------------------

    method SetTextInput(text: string)
      modifies this`textInput
      ensures textInput == text
      ensures old(Lifecycle()) ==> Lifecycle()
    {
      textInput := text;
    }

    method SetSearchText(text: string)
      modifies this`searchText
      ensures searchText == text
      ensures old(Lifecycle()) ==> Lifecycle()
    {
      searchText := text;
    }

    // -------------------------------------------------------------------------
    // Handlers
    // -------------------------------------------------------------------------

    /** Blank input (nothing but white space) changes nothing. Otherwise the
        typed text, untrimmed, is appended as a task whose id is the old list
        length; the list is stored, the input cleared and the message hidden. */
    method HandleAddTodo(now: string)
      modifies this`todos, this`store, this`textInput, this`noTodosMessage
      ensures AllSpace(old(textInput)) ==> unchanged(this)
      ensures !AllSpace(old(textInput)) ==>
        && todos == old(todos) + [Task(|old(todos)|, old(textInput), now, None)]
        && store == old(store)[TodosKey := todos]
        && textInput == ""
        && !noTodosMessage
      ensures old(Lifecycle()) ==> Lifecycle()
    {
      if Trim(textInput) == "" {
        return;
      }
      var newTodo := NewTodo(todos, textInput, now);
      var updatedTodos := todos + [newTodo];
      assert AllActive(todos) ==> AllActive(updatedTodos) by {
        assert forall t :: t in updatedTodos ==> t in todos || t == newTodo;
      }
      todos := updatedTodos;
      SaveTodos(updatedTodos);
      textInput := "";
      noTodosMessage := false;
    }

    /** The check mark of an active row: every task with `id` leaves the
        active list, the first of them is appended to the completed list with
        its completion time, and both lists are stored. */
    method HandleDeleteTodo(id: int, now: string)
      requires HasId(todos, id)
      modifies this`todos, this`completedItems, this`store
      ensures todos == WithoutId(old(todos), id)
      ensures forall t :: t in todos <==> t in old(todos) && t.id != id
      ensures exists i :: FirstWithId(old(todos), id, i) &&
                          completedItems == old(completedItems) + [old(todos)[i].(completedTimestamp := Some(now))]
      ensures store == old(store)[TodosKey := todos][CompletedKey := completedItems]
      ensures UniqueIds(old(todos)) ==>
        |todos| == |old(todos)| - 1 && |completedItems| == |old(completedItems)| + 1
      ensures old(Lifecycle()) ==> Lifecycle()
    {
      ghost var before := todos;
      var updatedTodos := WithoutId(todos, id);
      var todoToDelete := FindById(todos, id);
      var updatedCompletedItems := completedItems + [Stamp(todoToDelete.value, now)];
      todos := updatedTodos;
      completedItems := updatedCompletedItems;
      SaveTodos(updatedTodos);
      SaveCompletedItems(updatedCompletedItems);
      WithoutIdSpec(before, id);
      if UniqueIds(before) {
        var _ := RemoveUnique(before, id);
      }
    }

    /** Clear the active list, in memory and in the store; completed tasks
        and their stored copy are not touched. */
    method HandleDeleteAllTodos()
      modifies this`todos, this`store
      ensures todos == [] && store == old(store)[TodosKey := []]
      ensures old(Lifecycle()) ==> Lifecycle()
    {
      todos := [];
      SaveTodos([]);
    }

    /** The cross of a completed row: every completed task with `id` is
        dropped and the list is stored; an absent id leaves the list as it is. */
    method HandleDeleteCompleted(id: int)
      modifies this`completedItems, this`store
      ensures completedItems == WithoutId(old(completedItems), id)
      ensures forall t :: t in completedItems <==> t in old(completedItems) && t.id != id
      ensures !HasId(old(completedItems), id) ==> completedItems == old(completedItems)
      ensures store == old(store)[CompletedKey := completedItems]
      ensures old(Lifecycle()) ==> Lifecycle()
    {
      WithoutIdSpec(completedItems, id);
      var updatedCompletedItems := WithoutId(completedItems, id);
      completedItems := updatedCompletedItems;
      SaveCompletedItems(updatedCompletedItems);
    }

    /** "No" or closing the delete-all dialog: only the dialog goes away. */
    method HandleCloseDeleteAllModal()
      modifies this`showDeleteAllModal
      ensures !showDeleteAllModal
      ensures old(Lifecycle()) ==> Lifecycle()
    {
      showDeleteAllModal := false;
    }

    /** "Yes" in the delete-all dialog: the completed list is emptied and
        stored, and the dialog goes away. */
    method HandleConfirmDeleteAll()
      modifies this`completedItems, this`store, this`showDeleteAllModal
      ensures completedItems == [] && store == old(store)[CompletedKey := []]
      ensures !showDeleteAllModal
      ensures old(Lifecycle()) ==> Lifecycle()
    {
      completedItems := [];
      SaveCompletedItems([]);
      showDeleteAllModal := false;
    }

    /** The delete-all button of the completed view asks for confirmation;
        `yes` is the button the user presses. "No" changes nothing. */
    method HandleDeleteAllCompleted(yes: bool)
      modifies this`completedItems, this`store
      ensures yes ==> completedItems == [] && store == old(store)[CompletedKey := []]
      ensures !yes ==> unchanged(this)
      ensures old(Lifecycle()) ==> Lifecycle()
    {
      if yes {
        ConfirmDeleteAllCompleted();
      }
    }

    /** Empty the completed list and store the empty list. */
    method ConfirmDeleteAllCompleted()
      modifies this`completedItems, this`store
      ensures completedItems == [] && store == old(store)[CompletedKey := []]
      ensures old(Lifecycle()) ==> Lifecycle()
    {
      completedItems := [];
      SaveCompletedItems([]);
    }
  }

  // ---------------------------------------------------------------------------
  // Sessions: what a caller can conclude from the handlers' contracts alone
  // ---------------------------------------------------------------------------

  /** Start with nothing stored, add "Buy milk" and "Call Sam", check off
      task 0 and search for "call". */
  method SampleSession(t1: string, t2: string, t3: string)
    returns (active: seq<Task>, completed: seq<Task>, shown: seq<Task>)
    ensures active == [Task(1, "Call Sam", t2, None)]
    ensures completed == [Task(0, "Buy milk", t1, Some(t3))]
    ensures shown == active
  {
    var app := new App(map[]);
    app.LoadTodos();
    app.SetTextInput("Buy milk");
    assert !IsSpace("Buy milk"[0]);
    app.HandleAddTodo(t1);
    app.SetTextInput("Call Sam");
    assert !IsSpace("Call Sam"[0]);
    app.HandleAddTodo(t2);
    var milk, sam := Task(0, "Buy milk", t1, None), Task(1, "Call Sam", t2, None);
    assert app.todos == [milk, sam];
    assert FirstWithId(app.todos, 0, 0);
    app.HandleDeleteTodo(0, t3);
    SampleLists(milk, sam);
    app.SetSearchText("call");
    active, completed, shown := app.todos, app.completedItems, app.ShownTodos();
  }

  /** The list facts `SampleSession` relies on. */
  lemma SampleLists(milk: Task, sam: Task)
    requires milk.id == 0 && sam == Task(1, "Call Sam", sam.timestamp, None)
    ensures WithoutId([milk, sam], 0) == [sam]
    ensures Search([sam], "call") == [sam]
  {
    assert [milk, sam][1..] == [sam] && [sam][1..] == [];
    assert WithoutId([sam], 0) == [sam];
    assert Lower("Call Sam") == "call sam";
    assert Contains(Lower(sam.title), Lower("call"));
  }

  /** Ids taken from the list length collide at the level of the handlers:
      add, add, check off task 0 and add leave two active tasks with id 1;
      checking id 1 off then empties the active list but moves only the first
      of the two into the completed list. */
  method IdCollisionSession(a: string, b: string, c: string, t1: string, t2: string, t3: string,
                            done0: string, done1: string)
    returns (collided: seq<Task>, active: seq<Task>, completed: seq<Task>)
    requires !AllSpace(a) && !AllSpace(b) && !AllSpace(c)
    ensures collided == [Task(1, b, t2, None), Task(1, c, t3, None)]
    ensures active == []
    ensures completed == [Task(0, a, t1, Some(done0)), Task(1, b, t2, Some(done1))]
  {
    IdCollision(a, b, c, t1, t2, t3);
    var app := CollideIds(a, b, c, t1, t2, t3, done0);
    collided := app.todos;
    assert Task(1, b, t2, None) in app.todos;
    app.HandleDeleteTodo(1, done1);
    active, completed := app.todos, app.completedItems;
  }

  /** The first part of `IdCollisionSession`: add, add, check off task 0 and
      add again, on a fresh app over an empty store. */
  method CollideIds(a: string, b: string, c: string, t1: string, t2: string, t3: string, done0: string)
    returns (app: App)
    requires !AllSpace(a) && !AllSpace(b) && !AllSpace(c)
    ensures fresh(app)
    ensures app.todos == [Task(1, b, t2, None), Task(1, c, t3, None)]
    ensures app.completedItems == [Task(0, a, t1, Some(done0))]
  {
    IdCollision(a, b, c, t1, t2, t3);
    var x0, x1, x2 := Task(0, a, t1, None), Task(1, b, t2, None), Task(1, c, t3, None);
    app := new App(map[]);
    app.SetTextInput(a);
    app.HandleAddTodo(t1);
    app.SetTextInput(b);
    app.HandleAddTodo(t2);
    assert app.todos == [x0, x1];
    assert x0 in app.todos;
    app.HandleDeleteTodo(0, done0);
    assert app.todos == [x1];
    app.SetTextInput(c);
    app.HandleAddTodo(t3);
  }

  /** The completed list is loaded only when its view is opened, yet checking
      a task off stores the completed list held in memory. A task checked off
      before that view was opened in this run therefore replaces whatever
      completed history the store held. */
  method CompleteBeforeCompletedViewOpened(task: Task, history: seq<Task>, now: string)
    returns (storedCompleted: seq<Task>, reloaded: seq<Task>)
    ensures storedCompleted == [task.(completedTimestamp := Some(now))]
    ensures reloaded == storedCompleted
  {
    var app := new App(map[TodosKey := [task], CompletedKey := history]);
    app.LoadTodos();
    assert task in app.todos;
    assert FirstWithId(app.todos, task.id, 0);
    app.HandleDeleteTodo(task.id, now);
    storedCompleted := app.store[CompletedKey];
    app.LoadCompletedItems();
    reloaded := app.completedItems;
  }
}
