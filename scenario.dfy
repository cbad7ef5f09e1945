/**
 A client of the registry: two animal types register themselves by key, and a type
 that can be built from two argument lists registers once in each of two registries.
 Each method stands for a separate run, with every registry it uses starting empty.
 Everything asserted here follows from the contracts of `Factory` alone.
 */
module AnimalRegistry {

  import opened Wrappers
  import opened CStrings
  import opened Factories

  datatype Animal = Cat(age: int) | Dog(age: int) | HouseCat(age: int, indoor: bool)

  /** "Cat" */
  const CatKey: CStr := [67, 97, 116]
  /** "Dog" */
  const DogKey: CStr := [68, 111, 103]
  /** "Fish" */
  const FishKey: CStr := [70, 105, 115, 104]

  method AnimalScenario()
  {
    var byAge := new Factory<int, Animal>();
    var ok := byAge.Register(CatKey, age => Cat(age));
    assert ok;
    ok := byAge.Register(DogKey, age => Dog(age));
    assert ok;
    assert byAge.GetCount() == 2;
    assert byAge.Create(CatKey, 5) == Some(Cat(5));
    assert byAge.Create(FishKey, 5) == None;
    assert byAge.IsRegistered(DogKey) && !byAge.IsRegistered(FishKey);

    // a second registration under "Cat" is refused and the first one stays
    ok := byAge.Register(CatKey, age => Dog(age));
    assert !ok;
    assert byAge.Create(CatKey, 5) == Some(Cat(5));
    assert byAge.GetCount() == 2;

    // the same key under another argument list lives in a registry of its own
    var byAgeAndHome := new Factory<(int, bool), Animal>();
    ok := byAgeAndHome.Register(CatKey, (p: (int, bool)) => HouseCat(p.0, p.1));
    assert ok;
    assert byAgeAndHome.GetCount() == 1 && byAge.GetCount() == 2;
    assert byAgeAndHome.Create(CatKey, (3, true)) == Some(HouseCat(3, true));
    assert byAge.Create(CatKey, 3) == Some(Cat(3));
  }

  /**
   Enumeration follows `strcmp` order, not registration order, and ends in the null
   pointer. The registry here is the one for the argument list `(bool)`, which no
   other scenario uses.
   */
  method EnumerationScenario()
  {
    var byHome := new Factory<bool, Animal>();
    var ok := byHome.Register(DogKey, indoor => Dog(0));
    ok := byHome.Register(CatKey, indoor => HouseCat(0, indoor));
    assert byHome.Table().Keys == {CatKey, DogKey};
    assert byHome.GetCount() == 2;
    assert Less(CatKey, DogKey);
    LessAsymmetric(CatKey, DogKey);
    GetNameByIndexIncreasing(byHome, 0, 1);
    assert byHome.GetNameByIndex(0) == Some(CatKey);
    assert byHome.GetNameByIndex(1) == Some(DogKey);
    assert byHome.GetNameByIndex(2) == None;
  }
}
