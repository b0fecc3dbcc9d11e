/** Surveys (lib/surveyor/survey.rb): the parentless root container, and the stand-alone
    survey built from a multiplier's elements to render its item template. */
module Surveys {
  import opened Strings
  import opened Values
  import opened Elements
  import opened Containers

  /** `Survey.new(name, options)`: an empty root; having no parent, its path name is its name. */
  function NewSurvey(name: string, options: Options): (s: Node)
    ensures s.IsSurvey() && s.name == name && s.options == options && s.elements == []
    ensures PathName(Located([], s)) == name && SurveyOf(Located([], s)).node == s
  {
    Container(SurveyKind, name, options, [])
  }

  /** `Survey.clone_for_factor(m)`: a new survey named after `m`'s path name with every dot
      replaced by "__", with `m`'s options plus `no_label => true`, holding clones of `m`'s
      elements in order. A leaf has no elements and raises. */
  method CloneForFactor(m: Located) returns (r: Result<Node>)
    ensures r.Ok? <==> m.node.Container? && AllClonable(m.node.elements)
    ensures r.Ok? ==> r.value.IsSurvey() && r.value.elements == m.node.elements
    ensures r.Ok? ==> r.value.name == ReplaceChar(PathName(m), '.', "__") && '.' !in r.value.name
    ensures r.Ok? ==> r.value.options == m.node.options["no_label" := Bool(true)]
    ensures r.Err? ==> r.error == (if m.node.Field? then TypeMismatch else WrongParent)
  {
    var surv := NewSurvey(ReplaceChar(PathName(m), '.', "__"), m.node.options["no_label" := Bool(true)]);
    if m.node.Field? {
      return Err(TypeMismatch);
    }
    var cloned := CloneChildren(m.node, m.node.elements);
    if cloned.Err? {
      return Err(cloned.error);
    }
    r := Ok(surv.(elements := cloned.value));
  }
}
