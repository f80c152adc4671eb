/** The three fixed suggestions `analyze_resume` can give. Each text is
    written as two literals joined only as an aid to the proofs below: the
    solver checks the characters of two short literals far more cheaply than
    those of one long one. The value is the single sentence of the service. */
module Tips {

  const SkillsTip: string := "Add more technical skills " + "relevant to your field."
  const ProjectTip: string := "Include at least " + "one project section."
  const ExperienceTip: string := "Add an experience section " + "even for internships."

  /** None of the suggestions contains a semicolon. */
  lemma TipsFreeOfSemicolon()
    ensures ';' !in SkillsTip && ';' !in ProjectTip && ';' !in ExperienceTip
  {
    SkillsTipFree();
    ProjectTipFree();
    ExperienceTipFree();
  }

  lemma SkillsTipFree()
    ensures ';' !in SkillsTip
  {
  }

  lemma ProjectTipFree()
    ensures ';' !in ProjectTip
  {
  }

  lemma ExperienceTipFree()
    ensures ';' !in ExperienceTip
  {
  }
}
